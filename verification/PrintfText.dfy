/** What printf puts out, told without the engine of src/lib/libc/__printf.c: numbers read back in
    their base, fields as wide as asked for, and the meaning of the modifiers. */
module PrintfText {
  import opened Atoi
  import opened Basics
  import opened Printf

  // ---------------------------------------------------------------- numerals

  /** The value of a hexadecimal digit in lower case. */
  predicate HexDigit(c: char) { '0' <= c <= '9' || 'a' <= c <= 'f' }

  function ValueOf(c: char): (d: nat)
    requires HexDigit(c)
    ensures d < 16
  {
    if c <= '9' then c as int - '0' as int else c as int - 'a' as int + 10
  }

  predicate Numeral(s: string, base: nat) {
    s != "" && forall i: nat :: i < |s| ==> HexDigit(s[i]) && ValueOf(s[i]) < base
  }

  /** The number that a numeral stands for, most significant digit first. */
  function ReadIn(s: string, base: nat): nat
    requires forall i: nat :: i < |s| ==> HexDigit(s[i])
  {
    if s == "" then 0 else base * ReadIn(s[..|s| - 1], base) + ValueOf(s[|s| - 1])
  }

  lemma DigitFor(d: nat)
    requires d < 16
    ensures HexDigit(DIGITS[d]) && ValueOf(DIGITS[d]) == d
  {
  }

  /** The digits of a number stand for it, and do not start with a zero in vain. */
  lemma {:induction false} InBaseReads(n: nat, base: nat)
    requires 2 <= base <= 16
    ensures Numeral(InBase(n, base), base) && ReadIn(InBase(n, base), base) == n
    ensures n > 0 ==> InBase(n, base)[0] != '0'
    ensures n == 0 ==> InBase(n, base) == "0"
  {
    hide InBase, ReadIn, Numeral;
    var q, r := LastDigit(n, base);
    if q > 0 {
      InBaseReads(q, base);
      ReadNext(InBase(q, base), r, base);
    } else {
      assert "" + [DIGITS[r]] == [DIGITS[r]];
      ReadFirst(r, base);
    }
  }

  /** The last digit, and what is before it. */
  lemma LastDigit(n: nat, base: nat) returns (q: nat, r: nat)
    requires 2 <= base <= 16
    ensures base * q + r == n && r < base && (q > 0 ==> q < n) && (q == 0 ==> r == n)
    ensures InBase(n, base) == (if q > 0 then InBase(q, base) else "") + [DIGITS[r]]
  {
    hide InBase;
    q, r := n / base, n % base;
    InBaseStep(n, base);
    DivBack(n, base);
    if n < base { Below(n, base); }
  }

  lemma ReadNext(s: string, d: nat, base: nat)
    requires Numeral(s, base) && d < base <= 16
    ensures Numeral(s + [DIGITS[d]], base) && ReadIn(s + [DIGITS[d]], base) == base * ReadIn(s, base) + d
  {
    DigitFor(d);
    assert (s + [DIGITS[d]])[..|s|] == s;
  }

  lemma ReadFirst(d: nat, base: nat)
    requires d < base <= 16
    ensures Numeral([DIGITS[d]], base) && ReadIn([DIGITS[d]], base) == d
    ensures DIGITS[d] == '0' <==> d == 0
  {
    DigitFor(d);
    assert [DIGITS[d]][..0] == "" && ReadIn("", base) == 0;
  }

  lemma DivBack(n: nat, base: nat)
    requires base > 0
    ensures base * (n / base) + n % base == n
  {
  }

  // ---------------------------------------------------------------- fields

  /** `out` is `head + body` padded to `width`: on the right, with zeros between the two, or with
      blanks on the left. */
  predicate PaddedTo(out: string, width: nat, left: bool, zeros: bool, head: string, body: string) {
    var n := |head| + |body|;
    var fill := if zeros then '0' else ' ';
    && |out| == (if n < width then width else n)
    && if left then out[..n] == head + body && forall i: nat :: n <= i < |out| ==> out[i] == fill
       else if zeros then
         && out[..|head|] == head && out[|out| - |body|..] == body
         && forall i: nat :: |head| <= i < |out| - |body| ==> out[i] == '0'
       else out[|out| - n..] == head + body && forall i: nat :: i < |out| - n ==> out[i] == ' '
  }

  lemma FieldPadded(width: nat, left: bool, fill: char, head: string, body: string)
    requires fill == ' ' || fill == '0'
    ensures PaddedTo(Field(width, left, fill, head, body), width, left, fill == '0', head, body)
  {
    hide Repeat;
    var n := |head| + |body|;
    var out, pad := Field(width, left, fill, head, body), Repeat(fill, if n < width then width - n else 0);
    if left {
      assert out == head + body + pad;
    } else if fill == '0' {
      assert out == head + pad + body;
    } else {
      assert out == pad + (head + body);
    }
  }

  // ---------------------------------------------------------------- modifiers

  /** The decimal digits among some characters. */
  function OnlyDigits(s: string): (ds: string)
    ensures forall c :: c in ds ==> IsDigit(c)
  {
    if s == "" then ""
    else OnlyDigits(s[..|s| - 1]) + (if IsDigit(s[|s| - 1]) then [s[|s| - 1]] else "")
  }

  /** A zero comes before every other digit. */
  predicate ZeroFirst(s: string) {
    exists i: nat :: i < |s| && s[i] == '0' && forall j: nat :: j < i ==> !('1' <= s[j] <= '9')
  }

  predicate NoCount(s: string) {
    forall i: nat :: i < |s| ==> !('1' <= s[i] <= '9')
  }

  /** The state after the modifiers `mods` and what they mean: the digits are the width, a minus
      sign puts the padding on the right, a number sign asks for the prefix of the base, and a
      leading zero for zeros. */
  ghost predicate Means(s: State, mods: string) {
    && s.width == Decimal(OnlyDigits(mods)) && (s.left <==> '-' in mods) && (s.alt <==> '#' in mods)
    && (s.fill == '0' <==> ZeroFirst(mods)) && (s.fill == ' ' || s.fill == '0')
    && (s.width == 0 <==> NoCount(mods))
  }

  lemma {:induction false} ModsMean(mods: string, args: seq<Arg>)
    requires forall i: nat :: i < |mods| ==> Modifier(mods[i])
    ensures Means(Mods(mods, args), mods)
  {
    hide Means, Modified, Modifier;
    if mods == "" {
      NothingMeant(args);
    } else {
      var n := |mods| - 1;
      ModsMean(mods[..n], args);
      MeansNext(Mods(mods[..n], args), mods[..n], mods[n]);
      assert mods == mods[..n] + [mods[n]];
    }
  }

  lemma NothingMeant(args: seq<Arg>)
    ensures Means(State("", true, 0, false, ' ', false, args), "")
  {
  }

  lemma MeansNext(s: State, m: string, c: char)
    requires Means(s, m) && Modifier(c)
    ensures Means(Modified(s, c), m + [c])
  {
    hide Decimal, OnlyDigits, ZeroFirst;
    MoreDigits(m, c);
    ZeroStep(m, c);
    if IsDigit(c) { DecimalNext(OnlyDigits(m), c); }
    assert NoCount(m + [c]) <==> NoCount(m) && !('1' <= c <= '9') by {
      assert (m + [c])[|m|] == c && forall i: nat :: i < |m| ==> (m + [c])[i] == m[i];
    }
  }

  lemma MoreDigits(m: string, c: char)
    ensures OnlyDigits(m + [c]) == if IsDigit(c) then OnlyDigits(m) + [c] else OnlyDigits(m)
  {
    assert (m + [c])[..|m|] == m;
  }

  lemma ZeroStep(m: string, c: char)
    ensures ZeroFirst(m + [c]) <==>
      ZeroFirst(m) || (c == '0' && NoCount(m))
  {
    var s := m + [c];
    if ZeroFirst(m) {
      var i: nat :| i < |m| && m[i] == '0' && forall j: nat :: j < i ==> !('1' <= m[j] <= '9');
      assert s[i] == '0' && forall j: nat :: j < i ==> s[j] == m[j];
    }
    if c == '0' && NoCount(m) {
      assert s[|m|] == '0' && forall j: nat :: j < |m| ==> s[j] == m[j];
    }
    if ZeroFirst(s) {
      var i: nat :| i < |s| && s[i] == '0' && forall j: nat :: j < i ==> !('1' <= s[j] <= '9');
      assert forall j: nat :: j < |m| ==> s[j] == m[j];
      if i < |m| { assert m[i] == '0'; }
    }
  }

  // ---------------------------------------------------------------- conversions

  /** The text of an integer conversion with any modifiers: a sign or the prefix of the base, and
      the numeral of the magnitude in the base of the conversion, padded as the modifiers say. */
  lemma NumberText(c: char, w: nat, mods: string) returns (head: string, body: string)
    requires w < WORD && c in "doupx" && forall i: nat :: i < |mods| ==> Modifier(mods[i])
    ensures AllFit(Reset("", [Word(w)]), "%" + mods + [c])
    ensures var base := if c == 'o' then 8 else if c == 'x' || c == 'p' then 16 else 10;
      var neg := c == 'd' && 0x8000_0000 <= w;
      var alt := '#' in mods;
      && Numeral(body, base) && ReadIn(body, base) == (if neg then 0x1_0000_0000 - w else w)
      && (body[0] == '0' ==> body == "0")
      && head == (if neg then "-" else if c == 'p' || (alt && c == 'x') then "0x"
                  else if alt && c == 'o' then "0" else "")
    ensures var out := Format(Reset("", [Word(w)]), "%" + mods + [c]).out;
      && Format(Reset("", [Word(w)]), "%" + mods + [c]) == Reset(out, [])
      && PaddedTo(out, Decimal(OnlyDigits(mods)), '-' in mods, ZeroFirst(mods), head, body)
  {
    hide Format, AllFit, InBase, Field, Mods, OnlyDigits, ZeroFirst, PaddedTo, ReadIn, Numeral, Decimal;
    hide Magnitude, Negative, Prefix, Base;
    ModsMean(mods, [Word(w)]);
    var s := Mods(mods, [Word(w)]);
    NumberField(c, w, mods);
    head := (if Negative(c, w) then "-" else "") + Prefix(c, s.alt);
    body := InBase(Magnitude(c, w), Base(c));
    BodyReads(c, w);
    FieldPadded(s.width, s.left, s.fill, head, body);
    HeadIs(c, w, s.alt, '#' in mods);
  }

  lemma NumberField(c: char, w: nat, mods: string)
    requires w < WORD && c in "doupx" && forall i: nat :: i < |mods| ==> Modifier(mods[i])
    ensures AllFit(Reset("", [Word(w)]), "%" + mods + [c])
    ensures Format(Reset("", [Word(w)]), "%" + mods + [c]) == Reset(Number(Mods(mods, [Word(w)]), c, w), [])
  {
    hide Format, AllFit, Mods, Number, Step, Fits;
    ModsFormat(mods, [Word(w)]);
    NumberStep(Mods(mods, [Word(w)]), c, w);
    FormatSnoc(Reset("", [Word(w)]), "%" + mods, c);
  }

  lemma NumberStep(s: State, c: char, w: nat)
    requires w < WORD && c in "doupx" && s.inPct && s.out == "" && s.args == [Word(w)]
    ensures Fits(s, c) && Step(s, c) == Reset(Number(s, c, w), [])
  {
    hide Number, Field;
    assert "" + Number(s, c, w) == Number(s, c, w);
  }

  lemma BodyReads(c: char, w: nat)
    requires w < WORD && c in "doupx"
    ensures var body := InBase(Magnitude(c, w), Base(c));
      var base := if c == 'o' then 8 else if c == 'x' || c == 'p' then 16 else 10;
      && Numeral(body, base) && ReadIn(body, base) == (if c == 'd' && 0x8000_0000 <= w then 0x1_0000_0000 - w else w)
      && (body[0] == '0' ==> body == "0")
  {
    hide InBase, ReadIn, Numeral;
    InBaseReads(Magnitude(c, w), Base(c));
  }

  lemma HeadIs(c: char, w: nat, alt: bool, sharp: bool)
    requires w < WORD && c in "doupx" && alt == sharp
    ensures (if Negative(c, w) then "-" else "") + Prefix(c, alt) ==
      if c == 'd' && 0x8000_0000 <= w then "-"
      else if c == 'p' || (sharp && c == 'x') then "0x" else if sharp && c == 'o' then "0" else ""
  {
    assert "-" + "" == "-" && "" + "" == "" && "" + "0x" == "0x" && "" + "0" == "0";
  }

  /** Characters other than the percent sign stand for themselves. */
  lemma {:induction false} PlainText(f: string, args: seq<Arg>)
    requires '%' !in f
    ensures AllFit(Reset("", args), f) && Format(Reset("", args), f) == Reset(f, args)
  {
    hide Field, Number;
    var s0 := Reset("", args);
    if f == "" {
      FormatNone(s0);
    } else {
      var g, c := f[..|f| - 1], f[|f| - 1];
      assert f == g + [c] && c != '%';
      PlainText(g, args);
      FormatSnoc(s0, g, c);
    }
  }

  /** "%s" prints the string, "%c" the character, and "%%" a percent sign, padded as the modifiers
      say. */
  lemma OtherText(c: char, a: Arg, mods: string) returns (body: string)
    requires forall i: nat :: i < |mods| ==> Modifier(mods[i])
    requires (c == 's' && !a.Word?) || (c == 'c' && a.Word? && 0 < a.w < 256) || c == '%'
    ensures AllFit(Reset("", [a]), "%" + mods + [c])
    ensures body == if c == '%' then "%" else if c == 'c' then [a.w as char] else if a.Null? then "(null)" else a.s
    ensures var out := Format(Reset("", [a]), "%" + mods + [c]).out;
      && Format(Reset("", [a]), "%" + mods + [c]) == Reset(out, if c == '%' then [a] else [])
      && PaddedTo(out, Decimal(OnlyDigits(mods)), '-' in mods, ZeroFirst(mods), "", body)
  {
    hide Format, AllFit, InBase, Field, Mods, OnlyDigits, ZeroFirst, PaddedTo, Decimal, Number;
    ModsFormat(mods, [a]);
    ModsMean(mods, [a]);
    var s := Mods(mods, [a]);
    FormatSnoc(Reset("", [a]), "%" + mods, c);
    body := if c == '%' then "%" else if c == 'c' then [a.w as char] else if a.Null? then "(null)" else a.s;
    FieldPadded(s.width, s.left, s.fill, "", body);
    assert "" + Field(s.width, s.left, s.fill, "", body) == Field(s.width, s.left, s.fill, "", body);
  }

  // ---------------------------------------------------------------- whole formats

  /** The same state with `o` printed before. */
  function After(o: string, s: State): State {
    State(o + s.out, s.inPct, s.width, s.left, s.fill, s.alt, s.args)
  }

  lemma StepAfter(o: string, s: State, c: char)
    requires Fits(s, c)
    ensures Fits(After(o, s), c) && Step(After(o, s), c) == After(o, Step(s, c))
  {
    hide Field, InBase;
    var t := Step(s, c);
    assert t.out == s.out + t.out[|s.out|..] || t.out == s.out;
    assert o + (s.out + t.out[|s.out|..]) == o + s.out + t.out[|s.out|..];
  }

  lemma {:induction false} FormatAfter(o: string, s: State, f: string)
    requires AllFit(s, f)
    ensures AllFit(After(o, s), f) && Format(After(o, s), f) == After(o, Format(s, f))
    decreases |f|
  {
    hide Step, Fits;
    if f == "" {
      FormatNone(After(o, s));
    } else {
      var g, c := f[..|f| - 1], f[|f| - 1];
      FormatAfter(o, s, g);
      StepAfter(o, Format(s, g), c);
    }
  }

  lemma {:induction false} FormatThen(s: State, f: string, g: string)
    requires AllFit(s, f) && AllFit(Format(s, f), g)
    ensures AllFit(s, f + g) && Format(s, f + g) == Format(Format(s, f), g)
    decreases |g|
  {
    hide Step, Fits;
    if g == "" {
      assert f + g == f;
    } else {
      var h, c := g[..|g| - 1], g[|g| - 1];
      FormatThen(s, f, h);
      assert f + g == f + h + [c];
      FormatSnoc(s, f + h, c);
    }
  }

  /** A format is printed piece by piece: when a piece ends between two conversions, the rest of
      the format goes on with the arguments that are left, and its text comes behind. */
  lemma Pieces(f: string, g: string, args: seq<Arg>, rest: seq<Arg>)
    requires AllFit(Reset("", args), f) && AllFit(Reset("", rest), g)
    requires var s := Format(Reset("", args), f); s == Reset(s.out, rest)
    ensures AllFit(Reset("", args), f + g)
    ensures Format(Reset("", args), f + g).out == Format(Reset("", args), f).out + Format(Reset("", rest), g).out
  {
    hide Format, AllFit;
    var o := Format(Reset("", args), f).out;
    FormatAfter(o, Reset("", rest), g);
    assert After(o, Reset("", rest)) == Reset(o, rest);
    FormatThen(Reset("", args), f, g);
  }
}
