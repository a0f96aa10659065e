/** The printf engine: src/lib/libc/__printf.c, built without long long. What sendfunc is
    handed goes to the end of `out`. */
module Printf {
  import opened Atoi
  import opened Basics

  /** An argument: a 32-bit word, or a string pointer. */
  datatype Arg = Word(w: nat) | Text(s: string) | Null

  const DIGITS: string := "0123456789abcdef"

  /** A number in a base of 8, 10 or 16. */
  function InBase(n: nat, base: nat): (s: string)
    requires 2 <= base <= 16
    ensures s != ""
    decreases n
  {
    if n < base then [DIGITS[n]] else InBase(n / base, base) + [DIGITS[n % base]]
  }

  function Repeat(c: char, n: nat): (s: string)
    ensures |s| == n && forall i: nat :: i < n ==> s[i] == c
  {
    if n == 0 then "" else Repeat(c, n - 1) + [c]
  }

  /** The layout of a field: the text `head + body` padded to `width`; zeros go between the two
      on the left. */
  function Field(width: nat, left: bool, fill: char, head: string, body: string): string {
    var text := head + body;
    var n := if width > |text| then width - |text| else 0;
    if left then text + Repeat(fill, n)
    else if fill == '0' then head + Repeat(fill, n) + body
    else Repeat(fill, n) + text
  }

  /** The state between two characters of the format. */
  datatype State = State(out: string, inPct: bool, width: nat, left: bool, fill: char, alt: bool, args: seq<Arg>)

  function Reset(out: string, args: seq<Arg>): State {
    State(out, false, 0, false, ' ', false, args)
  }

  predicate Modifier(c: char) { c in "#-ql0123456789" }
  predicate Integer(c: char) { c in "doupx" }

  /** What a modifier character does. */
  function Modified(s: State, c: char): State {
    if c == '#' then s.(alt := true)
    else if c == '-' then s.(left := true)
    else if c == '0' && s.width == 0 then s.(fill := '0')
    else if IsDigit(c) then s.(width := s.width * 10 + DigitOf(c))
    else s
  }

  function Base(c: char): (b: nat)
    ensures b == 8 || b == 10 || b == 16
  {
    if c == 'x' || c == 'p' then 16 else if c == 'o' then 8 else 10
  }

  function Prefix(c: char, alt: bool): string {
    if (alt || c == 'p') && Base(c) == 16 then "0x" else if alt && Base(c) == 8 then "0" else ""
  }

  /** The sign and the magnitude printed for a word. */
  function Negative(c: char, w: nat): bool
    requires w < WORD
  {
    c == 'd' && Signed(w) < 0
  }

  function Magnitude(c: char, w: nat): (m: nat)
    requires w < WORD
    ensures m < WORD
  {
    if Negative(c, w) then WORD - w else w
  }

  /** The text of an integer conversion. */
  function Number(s: State, c: char, w: nat): string
    requires w < WORD
  {
    var sign := if Negative(c, w) then "-" else "";
    Field(s.width, s.left, s.fill, sign + Prefix(c, s.alt), InBase(Magnitude(c, w), Base(c)))
  }

  /** The arguments a character takes are there and of the right kind. */
  predicate Fits(s: State, c: char) {
    && (s.inPct && Integer(c) ==> s.args != [] && s.args[0].Word? && s.args[0].w < WORD)
    && (s.inPct && c == 's' ==> s.args != [] && !s.args[0].Word?)
    && (s.inPct && c == 'c' ==> s.args != [] && s.args[0].Word? && 0 < s.args[0].w < 256)
  }

  /** One character of the format. */
  function Step(s: State, c: char): State
    requires Fits(s, c)
  {
    if !s.inPct then (if c != '%' then s.(out := s.out + [c]) else s.(inPct := true))
    else if Modifier(c) then Modified(s, c)
    else if Integer(c) then Reset(s.out + Number(s, c, s.args[0].w), s.args[1..])
    else if c == 's' then
      Reset(s.out + Field(s.width, s.left, s.fill, "", if s.args[0].Text? then s.args[0].s else "(null)"), s.args[1..])
    else if c == 'c' then Reset(s.out + Field(s.width, s.left, s.fill, "", [s.args[0].w as char]), s.args[1..])
    else Reset(s.out + Field(s.width, s.left, s.fill, "", [c]), s.args)
  }

  class Pf {
    var out: string
    var charcount: int
    var inPct: bool
    var num: nat
    var sign: bool
    var spacing: nat
    var rightspc: bool
    var fillchar: char
    var base: nat
    var baseprefix: bool
    var altformat: bool
    var args: seq<Arg>

    ghost function V(): State
      reads this
    {
      State(out, inPct, spacing, rightspc, fillchar, altformat, args)
    }

    /** Between two characters. */
    ghost predicate Valid()
      reads this
    {
      charcount == |out| && num == 0 && !sign && base == 0 && !baseprefix
    }

    constructor (a: seq<Arg>)
      ensures Valid() && V() == Reset("", a)
    {
      out, charcount, args := "", 0, a;
      inPct, num, sign, spacing, rightspc := false, 0, false, 0, false;
      fillchar, base, baseprefix, altformat := ' ', 0, false, false;
    }

    method Print(txt: string)
      modifies this`out, this`charcount
      ensures out == old(out) + txt && charcount == old(charcount) + |txt|
    {
      out := out + txt;
      charcount := charcount + |txt|;
    }

    method EndField()
      modifies this
      ensures V() == Reset(old(out), old(args)) && charcount == old(charcount)
      ensures num == 0 && !sign && base == 0 && !baseprefix
    {
      inPct, num, sign, spacing, rightspc := false, 0, false, 0, false;
      fillchar, base, baseprefix, altformat := ' ', 0, false, false;
    }

    /** __pf_modifier. */
    method DoModifier(ch: char)
      requires Valid() && Modifier(ch)
      modifies this
      ensures Valid() && V() == Modified(old(V()), ch)
    {
      match ch {
        case '#' => altformat := true;
        case '-' => rightspc := true;
        case 'l' =>
        case 'q' =>
        case '0' => if spacing > 0 { spacing := spacing * 10; } else { fillchar := '0'; }
        case _ => spacing := spacing * 10 + (ch as int - '0' as int);
      }
    }

    /** __pf_getnum; the negation is in 32 bits. */
    method GetNum(ch: char)
      requires args != [] && args[0].Word? && args[0].w < WORD && !sign
      modifies this`num, this`sign, this`args
      ensures num == Magnitude(ch, old(args)[0].w) && sign == Negative(ch, old(args)[0].w) && args == old(args)[1..]
    {
      var w := args[0].w;
      args := args[1..];
      if ch == 'd' && Signed(w) < 0 {
        sign := true;
        num := (WORD - w) % WORD;
      } else {
        num := w;
      }
    }

    method SetBase(ch: char)
      requires Integer(ch) && !baseprefix
      modifies this`base, this`baseprefix
      ensures base == Base(ch) && baseprefix == (altformat || ch == 'p')
    {
      match ch {
        case 'd' => base := 10;
        case 'u' => base := 10;
        case 'x' => base := 16;
        case 'p' => base := 16;
        case _ => base := 8;
      }
      if altformat || ch == 'p' { baseprefix := true; }
    }

    method Fill(spc: nat)
      modifies this`out, this`charcount
      ensures out == old(out) + Repeat(fillchar, spc) && charcount == old(charcount) + spc
    {
      var i := 0;
      while i < spc
        invariant i <= spc && out == old(out) + Repeat(fillchar, i) && charcount == old(charcount) + i
      {
        Print([fillchar]);
        i := i + 1;
      }
    }

    /** __pf_printstuff. */
    method PrintStuff(prefix: string, prefix2: string, stuff: string)
      modifies this`out, this`charcount
      ensures out == old(out) + Field(spacing, rightspc, fillchar, prefix + prefix2, stuff)
      ensures charcount - |out| == old(charcount) - |old(out)|
    {
      hide Field, Repeat;
      var len := |prefix| + |prefix2| + |stuff|;
      var spc := spacing;
      if spc > len { spc := spc - len; } else { spc := 0; }
      ghost var fill := Repeat(fillchar, spc);
      ghost var a := if spc > 0 && !rightspc && fillchar != '0' then fill else "";
      ghost var b := if spc > 0 && !rightspc && fillchar == '0' then fill else "";
      ghost var c := if spc > 0 && rightspc then fill else "";
      ghost var o := out;
      FieldParts(spacing, rightspc, fillchar, prefix, prefix2, stuff, o, a, b, c);
      if spc > 0 && !rightspc && fillchar != '0' { Fill(spc); }
      assert out == o + a;
      Print(prefix);
      Print(prefix2);
      if spc > 0 && !rightspc && fillchar == '0' { Fill(spc); }
      assert out == o + a + prefix + prefix2 + b;
      Print(stuff);
      if spc > 0 && rightspc { Fill(spc); }
      assert out == o + a + prefix + prefix2 + b + stuff + c;
    }

    /** The digit loop of __pf_printnum, backwards into a buffer of 12 bytes. */
    method DigitLoop() returns (buf: array<char>, x: nat)
      requires num < WORD && (base == 8 || base == 10 || base == 16)
      ensures fresh(buf) && buf.Length == 12 && x < 11 && buf[11] == '\0' && buf[x..11] == InBase(num, base)
    {
      hide InBase, Room, Rest;
      buf := new char[12];
      var i := 11;
      buf[i] := '\0';
      i := i - 1;
      var xnum: nat := num;
      var more := true;
      RestStart(num, base);
      assert buf[11..11] == "";
      while more
        invariant -1 <= i <= 10 && (more ==> i >= 0) && (!more ==> i < 10)
        invariant xnum < Room(10 - i) && buf[11] == '\0'
        invariant InBase(num, base) == Rest(xnum, base, more) + buf[i + 1..11]
        decreases i
      {
        var c, q := RestStep(xnum, base, 10 - i);
        ghost var tail := buf[i + 1..11];
        buf[i] := c;
        assert buf[i..11] == [c] + tail;
        Join(Rest(q, base, q > 0), [c], tail);
        i := i - 1;
        xnum := q;
        more := xnum > 0;
        if more { RoomEnd(10 - i); }
      }
      RestEnd(xnum, base, buf[i + 1..11]);
      x := i + 1;
    }

    /** __pf_printnum. */
    method PrintNum()
      requires num < WORD && (base == 8 || base == 10 || base == 16)
      modifies this`out, this`charcount
      ensures charcount - |out| == old(charcount) - |old(out)|
      ensures out == old(out) + Field(spacing, rightspc, fillchar,
        (if sign then "-" else "") +
        (if baseprefix && base == 16 then "0x" else if baseprefix && base == 8 then "0" else ""),
        InBase(num, base))
    {
      hide InBase, Field;
      var buf, x := DigitLoop();
      var bprefix := "";
      if baseprefix && base == 16 { bprefix := "0x"; }
      else if baseprefix && base == 8 { bprefix := "0"; }
      var sprefix := if sign then "-" else "";
      PrintStuff(sprefix, bprefix, buf[x..11]);
    }

    /** __pf_send. */
    method Send(ch: char)
      requires Valid() && ch != '\0' && Fits(V(), ch)
      modifies this
      ensures Valid() && V() == Step(old(V()), ch)
    {
      hide InBase, Field;
      assert "" + "" == "";
      if !inPct && ch != '%' {
        Print([ch]);
      } else if !inPct {
        inPct := true;
      } else if ch in "#-ql0123456789" {
        DoModifier(ch);
      } else if ch in "doupx" {
        GetNum(ch);
        SetBase(ch);
        PrintNum();
        EndField();
      } else if ch == 's' {
        var str := if args[0].Text? then args[0].s else "(null)";
        args := args[1..];
        PrintStuff("", "", str);
        EndField();
      } else {
        var x := ch;
        if ch == 'c' {
          x := args[0].w as char;
          args := args[1..];
        }
        PrintStuff("", "", [x]);
        EndField();
      }
    }
  }

  /** A field piece by piece, as it is printed after `o`. */
  lemma FieldParts(width: nat, left: bool, fill: char, p: string, q: string, body: string, o: string, a: string,
    b: string, c: string)
    requires var len := |p| + |q| + |body|;
      var n := if width > len then width - len else 0;
      && a == (if n > 0 && !left && fill != '0' then Repeat(fill, n) else "")
      && b == (if n > 0 && !left && fill == '0' then Repeat(fill, n) else "")
      && c == (if n > 0 && left then Repeat(fill, n) else "")
    ensures o + a + p + q + b + body + c == o + Field(width, left, fill, p + q, body)
  {
    hide Repeat;
    var len := |p| + |q| + |body|;
    var n := if width > len then width - len else 0;
    var pad := Repeat(fill, n);
    assert |p + q + body| == len;
    if n == 0 { assert pad == ""; }
    if left {
      assert o + a + p + q + b + body + c == o + (p + q + body + pad);
    } else if fill == '0' {
      assert o + a + p + q + b + body + c == o + (p + q + pad + body);
    } else {
      assert o + a + p + q + b + body + c == o + (pad + (p + q + body));
    }
  }

  /** The state after a whole format, when the arguments fit. */
  function Format(s: State, f: string): State
    requires AllFit(s, f)
    decreases |f|, 1
  {
    if f == "" then s else Step(Format(s, f[..|f| - 1]), f[|f| - 1])
  }

  predicate AllFit(s: State, f: string)
    decreases |f|, 0
  {
    f == "" || (AllFit(s, f[..|f| - 1]) && Fits(Format(s, f[..|f| - 1]), f[|f| - 1]))
  }

  /** __vprintf: it counts what it prints. */
  method Vprintf(f: string, args: seq<Arg>) returns (out: string, count: int)
    requires (forall c :: c in f ==> c != '\0') && AllFit(Reset("", args), f)
    ensures out == Format(Reset("", args), f).out && count == |out|
  {
    hide Step, Fits, Format, AllFit;
    var pf := new Pf(args);
    var i := 0;
    FormatNone(Reset("", args));
    while i < |f|
      invariant i <= |f| && pf.Valid() && AllFit(Reset("", args), f[..i]) && pf.V() == Format(Reset("", args), f[..i])
      invariant fresh(pf)
    {
      AllFitPrefix(Reset("", args), f, i + 1);
      FormatNext(Reset("", args), f, i);
      assert f[i] in f;
      pf.Send(f[i]);
      i := i + 1;
    }
    assert f[..i] == f;
    out, count := pf.out, pf.charcount;
  }

  lemma FormatNone(s: State)
    ensures AllFit(s, "") && Format(s, "") == s
  {
  }

  lemma FormatNext(s: State, f: string, i: nat)
    requires i < |f| && AllFit(s, f[..i + 1])
    ensures AllFit(s, f[..i]) && Fits(Format(s, f[..i]), f[i]) && Format(s, f[..i + 1]) == Step(Format(s, f[..i]), f[i])
  {
    hide Step, Fits;
    assert f[..i + 1][..i] == f[..i];
  }

  lemma {:induction false} AllFitPrefix(s: State, f: string, i: nat)
    requires i <= |f| && AllFit(s, f)
    ensures AllFit(s, f[..i])
    decreases |f|
  {
    hide Step, Fits;
    if i == |f| {
      assert f[..i] == f;
    } else {
      AllFitPrefix(s, f[..|f| - 1], i);
      assert f[..|f| - 1][..i] == f[..i];
    }
  }

  // ---------------------------------------------------------------- the buffer

  /** A bound on what is left of a word after `d` digits in base 8 or more. */
  function Room(d: nat): nat {
    if d == 0 then WORD else (Room(d - 1) + 7) / 8
  }

  lemma RoomStep(d: nat, x: nat, base: nat)
    requires x < Room(d) && (base == 8 || base == 10 || base == 16)
    ensures x / base < Room(d + 1)
  {
    assert x / base <= x / 8;
  }

  /** After eleven digits nothing is left. */
  lemma RoomEnd(d: nat)
    requires d <= 11
    ensures Room(11) == 1 && (d == 11 ==> Room(d) == 1)
  {
    assert Room(1) == 0x2000_0000;
    assert Room(2) == 0x400_0000;
    assert Room(3) == 0x80_0000;
    assert Room(4) == 0x10_0000;
    assert Room(5) == 0x2_0000;
    assert Room(6) == 0x4000;
    assert Room(7) == 0x800;
    assert Room(8) == 0x100;
    assert Room(9) == 0x20;
    assert Room(10) == 4;
  }

  lemma InBaseStep(x: nat, base: nat)
    requires 2 <= base <= 16
    ensures InBase(x, base) == (if x / base > 0 then InBase(x / base, base) else "") + [DIGITS[x % base]]
  {
    if x < base {
      Below(x, base);
      assert InBase(x, base) == "" + [DIGITS[x % base]];
    } else {
      Above(x, base);
      assert InBase(x, base) == InBase(x / base, base) + [DIGITS[x % base]];
    }
  }

  /** What the digit loop has still to write. */
  function Rest(x: nat, base: nat, more: bool): string
    requires 2 <= base <= 16
  {
    if more then InBase(x, base) else ""
  }

  lemma RestStart(n: nat, base: nat)
    requires n < WORD && 2 <= base <= 16
    ensures n < Room(0) && InBase(n, base) == Rest(n, base, true) && Rest(n, base, true) + "" == Rest(n, base, true)
  {
  }

  lemma RestEnd(x: nat, base: nat, s: string)
    requires 2 <= base <= 16
    ensures Rest(x, base, false) + s == s
  {
  }

  lemma Join(a: string, b: string, c: string)
    ensures a + b + c == a + (b + c)
  {
  }

  /** The next digit and what is left. */
  method RestStep(x: nat, base: nat, d: nat) returns (c: char, q: nat)
    requires x < Room(d) && (base == 8 || base == 10 || base == 16)
    ensures q < Room(d + 1) && Rest(x, base, true) == Rest(q, base, q > 0) + [c]
  {
    hide Room;
    InBaseStep(x, base);
    RoomStep(d, x, base);
    c := DIGITS[x % base];
    q := x / base;
  }

  lemma Below(x: nat, base: nat)
    requires x < base
    ensures x / base == 0 && x % base == x
  {
  }

  lemma Above(x: nat, base: nat)
    requires 0 < base <= x
    ensures x / base > 0
  {
  }

  // ---------------------------------------------------------------- %d and atoi

  /** Decimal digits read back. */
  lemma {:induction false} DecimalOf(n: nat)
    ensures (forall c :: c in InBase(n, 10) ==> IsDigit(c)) && Decimal(InBase(n, 10)) == n
  {
    DigitAt(n % 10);
    InBaseStep(n, 10);
    if n >= 10 {
      DecimalOf(n / 10);
      DecimalNext(InBase(n / 10, 10), DIGITS[n % 10]);
    } else {
      DecimalNext("", DIGITS[n % 10]);
      assert "" + [DIGITS[n % 10]] == [DIGITS[n % 10]];
    }
  }

  lemma DigitAt(d: nat)
    requires d < 10
    ensures IsDigit(DIGITS[d]) && DigitOf(DIGITS[d]) == d
  {
  }

  function Pow10(k: nat): (p: nat)
    ensures p > 0
  {
    if k == 0 then 1 else 10 * Pow10(k - 1)
  }

  /** Zeros on the left change nothing. */
  lemma {:induction false} ZerosBefore(k: nat, ds: string)
    requires forall c :: c in ds ==> IsDigit(c)
    ensures (forall c :: c in Repeat('0', k) + ds ==> IsDigit(c)) && Decimal(Repeat('0', k) + ds) == Decimal(ds)
    decreases |ds|
  {
    if ds == "" {
      assert Repeat('0', k) + ds == Repeat('0', k);
      AllZeros(k);
    } else {
      var n := |ds| - 1;
      assert ds == ds[..n] + [ds[n]] && ds[n] in ds;
      assert forall c :: c in ds[..n] ==> c in ds;
      ZerosBefore(k, ds[..n]);
      assert Repeat('0', k) + ds == (Repeat('0', k) + ds[..n]) + [ds[n]];
      DecimalNext(Repeat('0', k) + ds[..n], ds[n]);
    }
  }

  lemma {:induction false} AllZeros(k: nat)
    ensures (forall c :: c in Repeat('0', k) ==> IsDigit(c)) && Decimal(Repeat('0', k)) == 0
  {
    if k > 0 {
      AllZeros(k - 1);
      DecimalNext(Repeat('0', k - 1), '0');
    }
  }

  /** Zeros on the right multiply. */
  lemma {:induction false} ZerosAfter(ds: string, k: nat)
    requires forall c :: c in ds ==> IsDigit(c)
    ensures (forall c :: c in ds + Repeat('0', k) ==> IsDigit(c)) &&
      Decimal(ds + Repeat('0', k)) == Decimal(ds) * Pow10(k)
  {
    hide Decimal;
    if k == 0 {
      assert ds + Repeat('0', k) == ds;
    } else {
      ZerosAfter(ds, k - 1);
      assert ds + Repeat('0', k) == (ds + Repeat('0', k - 1)) + ['0'];
      DecimalNext(ds + Repeat('0', k - 1), '0');
      TenTimes(Decimal(ds), Pow10(k - 1));
    }
  }

  lemma TenTimes(d: nat, p: nat)
    ensures 10 * (d * p) == d * (10 * p)
  {
  }

  /** An odd factor can be cancelled from a multiple of a power of two. */
  lemma {:induction false} OddCancels(m: nat, j: nat, e: nat, r: nat)
    requires m * (2 * j + 1) == r * Pow2(e)
    ensures exists q: nat :: m == q * Pow2(e)
  {
    if e == 0 {
      assert m == m * Pow2(e);
    } else {
      var x, y := m * j, r * Pow2(e - 1);
      OddTimes(m, j);
      TwoTimes(r, Pow2(e - 1));
      var h := y - x;
      OddTimes(h, j);
      TwoTimes(j, h);
      OddCancels(h, j, e - 1, r);
      var q: nat :| h == q * Pow2(e - 1);
      TwoTimes(q, Pow2(e - 1));
      assert m == q * Pow2(e);
    }
  }

  lemma OddTimes(m: int, j: int)
    ensures m * (2 * j + 1) == 2 * (m * j) + m
  {
  }

  lemma TwoTimes(a: int, b: int)
    ensures a * (2 * b) == 2 * (a * b) && (2 * b) * a == 2 * (b * a)
  {
  }

  lemma WordPower()
    ensures Pow2(32) == WORD
  {
    assert Pow2(8) == 256;
    assert Pow2(16) == 65536;
    assert Pow2(24) == 0x100_0000;
  }

  lemma PowTenOdd(k: nat)
    requires k > 0
    ensures exists j: nat :: Pow10(k) - 1 == 2 * j + 1
  {
    assert Pow10(k) - 1 == 2 * (5 * Pow10(k - 1) - 1) + 1;
  }

  /** Appending zeros to a number below 2^32 changes it modulo 2^32, unless it is 0. */
  lemma ShiftChanges(m: nat, k: nat)
    requires m < WORD && k > 0
    ensures (m * Pow10(k)) % WORD == m <==> m == 0
  {
    if (m * Pow10(k)) % WORD == m {
      PowTenOdd(k);
      var j: nat :| Pow10(k) - 1 == 2 * j + 1;
      var r := m * Pow10(k) / WORD;
      assert m * Pow10(k) == r * WORD + m;
      assert m * (2 * j + 1) == m * Pow10(k) - m;
      WordPower();
      OddCancels(m, j, 32, r);
      var q: nat :| m == q * Pow2(32);
    }
  }

  /** The state after a percent sign and some modifiers. */
  function Mods(mods: string, args: seq<Arg>): State {
    if mods == "" then State("", true, 0, false, ' ', false, args)
    else Modified(Mods(mods[..|mods| - 1], args), mods[|mods| - 1])
  }

  lemma FormatSnoc(s: State, f: string, c: char)
    requires AllFit(s, f) && Fits(Format(s, f), c)
    ensures AllFit(s, f + [c]) && Format(s, f + [c]) == Step(Format(s, f), c)
  {
    hide Step, Fits;
    assert (f + [c])[..|f|] == f;
  }

  lemma ModStep(s: State, c: char)
    requires s.inPct && Modifier(c) && (s.fill == ' ' || s.fill == '0')
    ensures Fits(s, c) && Step(s, c) == Modified(s, c)
    ensures var t := Modified(s, c); t.inPct && t.out == s.out && t.args == s.args && (t.fill == ' ' || t.fill == '0')
  {
    hide Number, Field;
  }

  lemma Percent(args: seq<Arg>)
    ensures AllFit(Reset("", args), "%") && Format(Reset("", args), "%") == State("", true, 0, false, ' ', false, args)
  {
    var s0 := Reset("", args);
    FormatNone(s0);
    assert Fits(s0, '%');
    FormatSnoc(s0, "", '%');
    assert "" + ['%'] == "%";
    hide Format, AllFit;
  }

  lemma {:induction false} ModsFormat(mods: string, args: seq<Arg>)
    requires forall i: nat :: i < |mods| ==> Modifier(mods[i])
    ensures AllFit(Reset("", args), "%" + mods) && Format(Reset("", args), "%" + mods) == Mods(mods, args)
    ensures var s := Mods(mods, args); s.inPct && s.out == "" && s.args == args && (s.fill == ' ' || s.fill == '0')
  {
    hide Format, AllFit, Step, Fits, Modified, Modifier;
    if mods == "" {
      Percent(args);
      assert "%" + mods == "%";
    } else {
      var shorter, c := mods[..|mods| - 1], mods[|mods| - 1];
      ModsFormat(shorter, args);
      ModStep(Mods(shorter, args), c);
      FormatSnoc(Reset("", args), "%" + shorter, c);
      assert "%" + shorter + [c] == "%" + mods;
    }
  }

  /** What atoi makes of a field with a decimal number in it. */
  lemma FieldReads(width: nat, left: bool, fill: char, neg: bool, m: nat)
    requires fill == ' ' || fill == '0'
    ensures var body := InBase(m, 10);
      var head := if neg then "-" else "";
      var k := if width > |head + body| then width - |head + body| else 0;
      var d := if left && fill == '0' then m * Pow10(k) else m;
      Parsed(Field(width, left, fill, head, body)) == if neg then Signed((WORD - d % WORD) % WORD) else Signed(d % WORD)
  {
    hide Parsed, Decimal, InBase, Pow10, Repeat, Blanks, Leading, Field;
    var body := InBase(m, 10);
    var head := if neg then "-" else "";
    var k := if width > |head + body| then width - |head + body| else 0;
    var pad := Repeat(fill, k);
    DecimalOf(m);
    FieldShape(width, left, fill, head, body, k);
    if left && fill == '0' {
      ZerosAfter(body, k);
      ParsedParts("", neg, body + pad, "");
    } else if left {
      ParsedParts("", neg, body, pad);
    } else if fill == '0' {
      ZerosBefore(k, body);
      ParsedParts("", neg, pad + body, "");
    } else {
      ParsedParts(pad, neg, body, "");
    }
  }

  /** A field in the parts atoi sees. */
  lemma FieldShape(width: nat, left: bool, fill: char, head: string, body: string, k: nat)
    requires k == if width > |head + body| then width - |head + body| else 0
    ensures var pad, out := Repeat(fill, k), Field(width, left, fill, head, body);
      && (left && fill == '0' ==> out == "" + head + (body + pad) + "")
      && (left && fill != '0' ==> out == "" + head + body + pad)
      && (!left && fill == '0' ==> out == "" + head + (pad + body) + "")
      && (!left && fill != '0' ==> out == pad + head + body + "")
  {
    hide Repeat;
  }

  /** The text of a number without padding. */
  function Plain(n: int): string {
    if n < 0 then "-" + InBase(-n, 10) else InBase(n, 10)
  }

  /** atoi undoes %d, for every 32-bit integer and every choice of modifiers, unless zeros
      are put after a number other than 0. */
  lemma RoundTrip(n: int, mods: string)
    requires -HALF <= n < HALF && forall i: nat :: i < |mods| ==> Modifier(mods[i])
    ensures AllFit(Reset("", [Word(WordOf(n))]), "%" + mods + "d")
    ensures var args := [Word(WordOf(n))];
      var s := Mods(mods, args);
      Parsed(Format(Reset("", args), "%" + mods + "d").out) == n <==>
        !(s.left && s.fill == '0' && s.width > |Plain(n)|) || n == 0
  {
    hide Parsed, Format, AllFit, Number, InBase, Field, Mods, Pow10, Plain, Modifier;
    var args := [Word(WordOf(n))];
    ModsFormat(mods, args);
    var s := Mods(mods, args);
    DStep(s, n);
    FormatSnoc(Reset("", args), "%" + mods, 'd');
    assert "" + Number(s, 'd', WordOf(n)) == Number(s, 'd', WordOf(n));
    NumberReads(s, n);
  }

  lemma PlainIs(n: int)
    ensures Plain(n) == (if n < 0 then "-" else "") + InBase(if n < 0 then -n else n, 10)
  {
  }

  /** Reading the magnitude `d` modulo 2^32 gives `n` just when it is the magnitude of `n`. */
  lemma SignedIs(n: int, d: nat)
    requires -HALF <= n < HALF
    ensures (if n < 0 then Signed((WORD - d % WORD) % WORD) else Signed(d % WORD)) == n <==>
      d % WORD == if n < 0 then -n else n
  {
  }

  lemma DStep(s: State, n: int)
    requires -HALF <= n < HALF && s.inPct && s.args == [Word(WordOf(n))]
    ensures Fits(s, 'd') && Step(s, 'd').out == s.out + Number(s, 'd', WordOf(n))
  {
    hide Number, Field;
  }

  lemma NumberReads(s: State, n: int)
    requires -HALF <= n < HALF && (s.fill == ' ' || s.fill == '0')
    ensures Parsed(Number(s, 'd', WordOf(n))) == n <==> !(s.left && s.fill == '0' && s.width > |Plain(n)|) || n == 0
  {
    hide Parsed, InBase, Field, Pow10, Plain, Number, Signed;
    var m := if n < 0 then -n else n;
    var head := if n < 0 then "-" else "";
    NumberIs(s, n);
    FieldReads(s.width, s.left, s.fill, n < 0, m);
    PlainIs(n);
    var k := if s.width > |Plain(n)| then s.width - |Plain(n)| else 0;
    var d := if s.left && s.fill == '0' then m * Pow10(k) else m;
    SignedIs(n, d);
    ShiftIs(m, k);
    hide WordOf;
  }

  /** The text of %d is a field with the sign and the magnitude. */
  lemma NumberIs(s: State, n: int)
    requires -HALF <= n < HALF
    ensures Number(s, 'd', WordOf(n)) ==
      Field(s.width, s.left, s.fill, if n < 0 then "-" else "", InBase(if n < 0 then -n else n, 10))
  {
    hide InBase, Field;
    var head := if n < 0 then "-" else "";
    assert Prefix('d', s.alt) == "" && head + "" == head;
  }

  lemma ShiftIs(m: nat, k: nat)
    requires m < WORD
    ensures (m * Pow10(k)) % WORD == m <==> k == 0 || m == 0
    ensures m % WORD == m
  {
    hide Pow10;
    if k > 0 { ShiftChanges(m, k); } else { PowZero(); }
  }

  lemma PowZero()
    ensures Pow10(0) == 1
  {
  }

  /** "%-03d" of 7 does not read back as 7. */
  lemma ZerosOnTheRight()
    ensures AllFit(Reset("", [Word(7)]), "%-03d") && Parsed(Format(Reset("", [Word(7)]), "%-03d").out) != 7
  {
    hide Parsed, Format, AllFit;
    var args := [Word(7)];
    var mods := "-03";
    RoundTrip(7, mods);
    assert "%" + mods + "d" == "%-03d";
    assert mods[..2] == "-0" && "-0"[..1] == "-" && "-"[..0] == "";
    assert Mods("", args) == State("", true, 0, false, ' ', false, args);
    assert Mods("-", args) == State("", true, 0, true, ' ', false, args);
    assert Mods("-0", args) == State("", true, 0, true, '0', false, args);
    assert Mods(mods, args) == State("", true, 3, true, '0', false, args);
    assert Plain(7) == "7";
  }
}
