/** Decimal text and atoi: src/lib/libc/atoi.c. A C string is the characters before its NUL. */
module Atoi {
  import opened Basics

  predicate IsDigit(c: char) { '0' <= c <= '9' }

  function DigitOf(c: char): (d: nat)
    requires IsDigit(c)
    ensures d < 10
  {
    c as int - '0' as int
  }

  predicate Blank(c: char) { c == ' ' || c == '\t' }

  /** A 32-bit word read as a signed integer. */
  function Signed(w: nat): (n: int)
    requires w < WORD
    ensures -HALF <= n < HALF
  {
    if w < HALF then w else w - WORD
  }

  /** The word of a signed integer. */
  function WordOf(n: int): (w: nat)
    requires -HALF <= n < HALF
    ensures w < WORD && Signed(w) == n
  {
    if n < 0 then n + WORD else n
  }

  /** The number a string of digits stands for. */
  function Decimal(s: string): nat
    requires forall c :: c in s ==> IsDigit(c)
  {
    if s == "" then 0 else 10 * Decimal(s[..|s| - 1]) + DigitOf(s[|s| - 1])
  }

  /** How many of the first characters of `s` are blanks. */
  function Blanks(s: string): (n: nat)
    ensures n <= |s| && (forall i: nat :: i < n ==> Blank(s[i])) && (n < |s| ==> !Blank(s[n]))
  {
    if s == "" || !Blank(s[0]) then 0 else 1 + Blanks(s[1..])
  }

  /** The digits `s` starts with. */
  function Leading(s: string): (ds: string)
    ensures ds <= s && (forall c :: c in ds ==> IsDigit(c)) && (|ds| < |s| ==> !IsDigit(s[|ds|]))
  {
    if s == "" || !IsDigit(s[0]) then "" else [s[0]] + Leading(s[1..])
  }

  /** What atoi should answer: skip blanks, take a sign, and read the digits that follow, in
      32-bit arithmetic. */
  function Parsed(s: string): int {
    var t := s[Blanks(s)..];
    if t != "" && t[0] == '-' then Signed((WORD - Decimal(Leading(t[1..])) % WORD) % WORD)
    else Signed(Decimal(Leading(t)) % WORD)
  }

  lemma DecimalNext(s: string, c: char)
    requires (forall d :: d in s ==> IsDigit(d)) && IsDigit(c)
    ensures (forall d :: d in s + [c] ==> IsDigit(d)) && Decimal(s + [c]) == 10 * Decimal(s) + DigitOf(c)
  {
    assert (s + [c])[..|s|] == s;
  }

  lemma ModMul(n: nat, d: nat)
    ensures (n % WORD * 10 + d) % WORD == (n * 10 + d) % WORD
  {
    var q := n / WORD;
    assert n == q * WORD + n % WORD;
    assert n * 10 + d == (q * 10) * WORD + (n % WORD * 10 + d);
    ModAdd(n % WORD * 10 + d, q * 10);
  }

  lemma {:induction false} ModAdd(a: nat, q: nat)
    ensures (q * WORD + a) % WORD == a % WORD
  {
  }

  /** atoi. */
  method Atoi(s: string) returns (r: int)
    requires forall c :: c in s ==> c != '\0'
    ensures r == Parsed(s)
  {
    hide Decimal, Leading, Blanks;
    var i := 0;
    BlanksAt(s);
    while i < |s| && (s[i] == ' ' || s[i] == '\t')
      invariant i <= Blanks(s)
    {
      i := i + 1;
    }
    BlanksEnd(s, i);
    var neg := false;
    if i < |s| && s[i] == '-' {
      neg := true;
      i := i + 1;
    }
    var val := 0;
    ghost var t := s[i..];
    ghost var j := 0;
    LeadingAt(t);
    DecimalNone();
    assert Leading(t)[..0] == "";
    while i < |s|
      invariant i <= |s| && i == |s| - |t| + j && j <= |Leading(t)|
      invariant (forall d :: d in Leading(t)[..j] ==> IsDigit(d)) && val == Decimal(Leading(t)[..j]) % WORD
      decreases |s| - i
    {
      if !IsDigit(s[i]) { break; }
      assert s[i] == t[j];
      LeadingNext(t, j);
      ghost var ds := Leading(t)[..j];
      DecimalNext(ds, s[i]);
      ModMul(Decimal(ds), DigitOf(s[i]));
      val := (val * 10 + DigitOf(s[i])) % WORD;
      i := i + 1;
      j := j + 1;
    }
    if j < |Leading(t)| { LeadingNext2(t, j); assert false; }
    assert Leading(t)[..j] == Leading(t);
    if neg {
      r := Signed((WORD - val) % WORD);
    } else {
      r := Signed(val);
    }
  }

  lemma DecimalNone()
    ensures Decimal("") == 0
  {
  }

  lemma BlanksAt(s: string)
    ensures Blanks(s) <= |s|
  {
  }

  lemma BlanksEnd(s: string, i: nat)
    requires i <= Blanks(s) && (i < |s| ==> !Blank(s[i]))
    ensures i == Blanks(s)
  {
  }

  lemma LeadingAt(t: string)
    ensures |Leading(t)| <= |t| && Leading(t) == t[..|Leading(t)|] && (|Leading(t)| < |t| ==> !IsDigit(t[|Leading(t)|]))
  {
    hide Decimal;
    var ds := Leading(t);
  }

  lemma LeadingNext(t: string, j: nat)
    requires j < |t| && j <= |Leading(t)| && IsDigit(t[j])
    ensures j < |Leading(t)| && Leading(t)[..j + 1] == Leading(t)[..j] + [t[j]]
  {
    LeadingAt(t);
    hide Leading;
    var ds := Leading(t);
    assert ds[j] == t[j];
  }

  lemma LeadingNext2(t: string, j: nat)
    requires j < |Leading(t)|
    ensures j < |t| && IsDigit(t[j])
  {
    assert Leading(t)[j] in Leading(t);
  }

  /** Reading is told by the parts: blanks, a sign, digits, and something that is no digit. */
  lemma ParsedParts(b: string, neg: bool, ds: string, rest: string)
    requires (forall c :: c in b ==> c == ' ') && ds != "" && (forall c :: c in ds ==> IsDigit(c))
    requires rest != "" ==> !IsDigit(rest[0])
    ensures Parsed(b + (if neg then "-" else "") + ds + rest) ==
      if neg then Signed((WORD - Decimal(ds) % WORD) % WORD) else Signed(Decimal(ds) % WORD)
  {
    hide Decimal, Leading, Blanks, Parsed;
    LeadingParts(ds, rest);
    assert ds[0] in ds && (ds + rest)[0] == ds[0];
    if neg {
      var t := "-" + (ds + rest);
      ParsedAfter(b, t);
      assert b + "-" + ds + rest == b + t;
      assert t[1..] == ds + rest;
    } else {
      ParsedAfter(b, ds + rest);
      assert b + "" + ds + rest == b + (ds + rest);
    }
  }

  lemma ParsedAfter(b: string, t: string)
    requires (forall c :: c in b ==> c == ' ') && t != "" && !Blank(t[0])
    ensures Parsed(b + t) == if t[0] == '-' then Signed((WORD - Decimal(Leading(t[1..])) % WORD) % WORD)
      else Signed(Decimal(Leading(t)) % WORD)
  {
    hide Decimal, Leading, Blanks;
    SkipBlanks(b, t);
    assert (b + t)[|b|..] == t;
  }

  lemma {:induction false} SkipBlanks(b: string, t: string)
    requires (forall c :: c in b ==> c == ' ') && t != "" && !Blank(t[0])
    ensures Blanks(b + t) == |b|
  {
    if b == "" {
      assert b + t == t;
    } else {
      assert b[0] in b;
      assert (b + t)[1..] == b[1..] + t;
      assert forall c :: c in b[1..] ==> c in b;
      SkipBlanks(b[1..], t);
    }
  }

  lemma {:induction false} LeadingParts(ds: string, rest: string)
    requires (forall c :: c in ds ==> IsDigit(c)) && (rest != "" ==> !IsDigit(rest[0]))
    ensures Leading(ds + rest) == ds
  {
    if ds == "" {
      assert ds + rest == rest;
    } else {
      assert ds[0] in ds;
      assert (ds + rest)[1..] == ds[1..] + rest;
      LeadingParts(ds[1..], rest);
    }
  }
}
