/** What a printf format means: the laws of its pieces, and how pieces go together. */
module FormatLaws {
  import opened Machine
  import opened ScreenSpec
  import opened FormatSpec

  /** Decimal digits only. */
  predicate Decimal(t: seq<Byte>) {
    forall i :: 0 <= i < |t| ==> '0' as int <= t[i] <= '9' as int
  }

  /** Hexadecimal digits with letters of one case. */
  predicate HexDigits(t: seq<Byte>, upper: bool) {
    forall i :: 0 <= i < |t| ==>
      '0' as int <= t[i] <= '9' as int
      || if upper then 'A' as int <= t[i] <= 'F' as int else 'a' as int <= t[i] <= 'f' as int
  }

  lemma DigitIs(d: nat, upper: bool)
    requires d < 16
    ensures HexDigits([Digit(d, upper)], upper) && (d < 10 ==> Decimal([Digit(d, upper)]))
  {
  }

  lemma {:induction false} LowFirstDigits(value: nat, base: nat, upper: bool)
    requires 2 <= base <= 16
    ensures HexDigits(LowFirst(value, base, upper), upper)
    ensures base <= 10 ==> Decimal(LowFirst(value, base, upper))
    decreases value
  {
    Split(value, base);
    DigitIs(value % base, upper);
    if value >= base {
      LowFirstDigits(value / base, base, upper);
    }
  }

  lemma NumeralDigits(value: nat, base: nat, upper: bool)
    requires 2 <= base <= 16
    ensures HexDigits(Numeral(value, base, upper), upper)
    ensures base <= 10 ==> Decimal(Numeral(value, base, upper))
  {
    LowFirstDigits(value, base, upper);
  }

  // ----- single conversions

  /** The text of a format that is one conversion, and how many prefix characters it has. */
  lemma OneConversion(c: Byte, a: Arg)
    requires Conversion(c) && Takes(c, a)
    ensures Suits([37, c], [a]) && Render([37, c], [a]) == Prefix(c) + Converted(c, a)
    ensures Hexes([37, c], [a]) == if c == 'x' as int || c == 'X' as int then 1 else 0
  {
    var f := [37, c];
    assert AtConversion(f) && f[2..] == [] && [a][1..] == [];
    assert Render(f, [a]) == Prefix(c) + Converted(c, a) + Render([], []);
  }

  lemma PlainConversion(c: Byte, a: Arg, text: seq<Byte>)
    requires Conversion(c) && Takes(c, a) && !Hex(c) && text == Converted(c, a)
    ensures Suits([37, c], [a]) && Render([37, c], [a]) == text && Hexes([37, c], [a]) == 0
  {
    OneConversion(c, a);
    assert Prefix(c) + text == text;
  }

  /** %u: decimal digits that read back as the argument, without a zero in front. */
  lemma PrintsUnsigned(u: Word)
    ensures var f, args := [37, 'u' as int], [Unsigned(u)];
      Suits(f, args) &&
      var t := Render(f, args);
      t != [] && Decimal(t) && Value(t, 10) == u && (u > 0 ==> t[0] != '0' as int) && Hexes(f, args) == 0
  {
    var t := Numeral(u, 10, false);
    PlainConversion('u' as int, Unsigned(u), t);
    NumeralDigits(u, 10, false);
    NumeralReadsBack(u, 10, false);
  }

  lemma SignedDigits(i: Int32)
    ensures var t := Signed(i);
      t != [] && SignedValue(t) == i && (i < 0 <==> t[0] == '-' as int) && Decimal(if i < 0 then t[1..] else t)
  {
    SignedReadsBack(i);
    NumeralDigits(Magnitude(i), 10, false);
    var digits := Numeral(Magnitude(i), 10, false);
    if i < 0 {
      assert Signed(i)[1..] == digits;
    } else {
      assert Signed(i) == digits;
    }
  }

  /** %d: the same behind a minus sign for negative arguments. */
  lemma PrintsInt(i: Int32)
    ensures var f, args := [37, 'd' as int], [Int(i)];
      Suits(f, args) &&
      var t := Render(f, args);
      t != [] && SignedValue(t) == i && (i < 0 <==> t[0] == '-' as int) &&
      Decimal(if i < 0 then t[1..] else t) && Hexes(f, args) == 0
  {
    PlainConversion('d' as int, Int(i), Signed(i));
    SignedDigits(i);
  }

  lemma HexConversion(c: Byte, u: Word, digits: seq<Byte>)
    requires Hex(c) && digits == Converted(c, Unsigned(u)) && digits != []
    ensures var f, args := [37, c], [Unsigned(u)];
      Suits(f, args) && Hexes(f, args) == 1 &&
      var t := Render(f, args);
      |t| > 2 && t[0] == '0' as int && t[1] == 'x' as int && t[2..] == digits && t[2] == digits[0]
  {
    OneConversion(c, Unsigned(u));
    var t := Render([37, c], [Unsigned(u)]);
    assert t == ['0' as int, 'x' as int] + digits;
  }

  /** %x and %X: 0x, and hexadecimal digits that read back as the argument, with letters in the case
      of the conversion. */
  lemma PrintsHex(u: Word, upper: bool)
    ensures var f, args := [37, if upper then 'X' as int else 'x' as int], [Unsigned(u)];
      Suits(f, args) &&
      var t := Render(f, args);
      |t| > 2 && t[0] == '0' as int && t[1] == 'x' as int &&
      HexDigits(t[2..], upper) && Value(t[2..], 16) == u && (u > 0 ==> t[2] != '0' as int) && Hexes(f, args) == 1
  {
    var digits := Numeral(u, 16, upper);
    HexConversion(if upper then 'X' as int else 'x' as int, u, digits);
    NumeralDigits(u, 16, upper);
    NumeralReadsBack(u, 16, upper);
  }

  /** %c: the low byte of the argument.  %s: the string. */
  lemma PrintsCharAndString(i: Int32, s: Text)
    ensures var f, args := [37, 'c' as int], [Int(i)];
      Suits(f, args) && Render(f, args) == [i % 256] && Hexes(f, args) == 0
    ensures var f, args := [37, 's' as int], [Str(s)];
      Suits(f, args) && Render(f, args) == s && Hexes(f, args) == 0
  {
    PlainConversion('c' as int, Int(i), [i % 256]);
    PlainConversion('s' as int, Str(s), s);
  }

  // ----- text that is no conversion

  /** Text without a percent sign stands for itself. */
  lemma PrintsPlain(f: seq<Byte>)
    requires forall i :: 0 <= i < |f| ==> f[i] != 37
    ensures Suits(f, []) && Render(f, []) == f && Hexes(f, []) == 0
  {
    LiteralRest(f, [], |f|);
    assert f[|f|..] == [];
  }

  /** Two percent signs stand for one. */
  lemma PrintsPercent()
    ensures Suits([37, 37], []) && Render([37, 37], []) == [37] && Hexes([37, 37], []) == 0
  {
    var f: seq<Byte> := [37, 37];
    assert AtDouble(f) && f[2..] == [];
  }

  /** From an unknown conversion on, the format is taken as it is. */
  lemma PrintsUnknown(f: seq<Byte>, args: seq<Arg>)
    requires f != [] && f[0] == 37
    requires |f| > 1 ==>
      f[1] != 37 && f[1] != 'c' as int && f[1] != 's' as int && f[1] != 'd' as int && f[1] != 'u' as int &&
      f[1] != 'x' as int && f[1] != 'X' as int
    ensures Suits(f, args) && Render(f, args) == f && Hexes(f, args) == 0
  {
  }

  // ----- formats one after the other

  /** Every percent sign of the format begins a conversion or a pair of percent signs. */
  predicate Whole(f: seq<Byte>) {
    if f == [] then true
    else if f[0] != 37 then Whole(f[1..])
    else (AtDouble(f) || AtConversion(f)) && Whole(f[2..])
  }

  /** How many arguments the format takes. */
  function Used(f: seq<Byte>): nat {
    if f == [] then 0
    else if f[0] != 37 then Used(f[1..])
    else if AtDouble(f) then Used(f[2..])
    else if AtConversion(f) then 1 + Used(f[2..])
    else 0
  }

  /** Both formats print what each of them prints, in that order. */
  ghost predicate Appends(f: seq<Byte>, g: seq<Byte>, args: seq<Arg>, more: seq<Arg>)
    requires Suits(f, args) && Suits(g, more)
  {
    && Suits(f + g, args + more)
    && Render(f + g, args + more) == Render(f, args) + Render(g, more)
    && Hexes(f + g, args + more) == Hexes(f, args) + Hexes(g, more)
  }

  /** One step of Render, Hexes and Suits: `n` characters of the format and `k` arguments print
      `head`, with `x` prefixes. */
  ghost predicate Headed(f: seq<Byte>, args: seq<Arg>, n: nat, k: nat, head: seq<Byte>, x: nat) {
    && n <= |f| && k <= |args| && Suits(f, args) && Suits(f[n..], args[k..])
    && Render(f, args) == head + Render(f[n..], args[k..])
    && Hexes(f, args) == x + Hexes(f[n..], args[k..])
  }

  lemma HeadLiteral(f: seq<Byte>, args: seq<Arg>)
    requires f != [] && f[0] != 37 && Suits(f[1..], args)
    ensures Headed(f, args, 1, 0, [f[0]], 0)
  {
    assert args[0..] == args;
  }

  lemma HeadPair(f: seq<Byte>, args: seq<Arg>)
    requires AtDouble(f) && Suits(f[2..], args)
    ensures Headed(f, args, 2, 0, [37], 0)
  {
    assert args[0..] == args;
  }

  lemma HeadConversion(f: seq<Byte>, args: seq<Arg>)
    requires AtConversion(f) && args != [] && Takes(f[1], args[0]) && Suits(f[2..], args[1..])
    ensures Headed(f, args, 2, 1, Prefix(f[1]) + Converted(f[1], args[0]), if Hex(f[1]) then 1 else 0)
  {
  }

  /** The same head before one format and before both. */
  lemma AppendsHead(f: seq<Byte>, g: seq<Byte>, args: seq<Arg>, more: seq<Arg>, n: nat, k: nat, head: seq<Byte>, x: nat)
    requires Headed(f, args, n, k, head, x) && Headed(f + g, args + more, n, k, head, x) && Suits(g, more)
    requires Appends(f[n..], g, args[k..], more)
    ensures Appends(f, g, args, more)
  {
    var rest, left := (f + g)[n..], (args + more)[k..];
    TailOfBoth(f, g, n);
    TailOfBoth(args, more, k);
    var a, b := Render(f[n..], args[k..]), Render(g, more);
    assert Render(rest, left) == a + b;
    Regroup(Render(f + g, args + more), head, Render(rest, left), a, b, Render(f, args));
  }

  lemma TailOfBoth<T>(a: seq<T>, b: seq<T>, n: nat)
    requires n <= |a|
    ensures (a + b)[n..] == a[n..] + b
  {
  }

  /** A format and another one print what each of them prints, in that order. */
  lemma {:induction false} Concatenated(f: seq<Byte>, g: seq<Byte>, args: seq<Arg>, more: seq<Arg>)
    requires Whole(f) && Suits(f, args) && |args| == Used(f) && Suits(g, more)
    ensures Appends(f, g, args, more)
    decreases |f|
  {
    if f == [] {
      assert f + g == g && args + more == more;
    } else if f[0] != 37 {
      Concatenated(f[1..], g, args, more);
      assert (f + g)[1..] == f[1..] + g && args[0..] == args;
      HeadLiteral(f, args);
      HeadLiteral(f + g, args + more);
      AppendsHead(f, g, args, more, 1, 0, [f[0]], 0);
    } else if AtDouble(f) {
      Concatenated(f[2..], g, args, more);
      assert (f + g)[2..] == f[2..] + g && args[0..] == args;
      HeadPair(f, args);
      HeadPair(f + g, args + more);
      AppendsHead(f, g, args, more, 2, 0, [37], 0);
    } else {
      Concatenated(f[2..], g, args[1..], more);
      assert (f + g)[2..] == f[2..] + g && (args + more)[1..] == args[1..] + more;
      HeadConversion(f, args);
      HeadConversion(f + g, args + more);
      AppendsHead(f, g, args, more, 2, 1, Prefix(f[1]) + Converted(f[1], args[0]), if Hex(f[1]) then 1 else 0);
    }
  }
}
