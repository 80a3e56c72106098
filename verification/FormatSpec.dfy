/** What a printf format says, character by character, and what the formatter does with it. */
module FormatSpec {
  import opened Machine
  import opened Markers
  import opened ScreenSpec

  const INT_MAX: int := 0x7FFF_FFFF
  const PERCENT: Byte := 37

  /** A C string without its terminator. */
  type Text = s: seq<Byte> | forall i :: 0 <= i < |s| ==> s[i] != 0

  type Int32 = i: int | -0x8000_0000 <= i <= 0x7FFF_FFFF

  datatype Arg = Int(i: Int32) | Unsigned(u: Word) | Str(s: Text)

  // ----- numerals

  /** A digit up to fifteen; the letters start at 'A' or 'a', ten after '7' or 'W'. */
  function Digit(d: nat, upper: bool): (c: Byte)
    requires d < 16
    ensures DigitValue(c) == d && c != 0
  {
    (if d > 9 then if upper then 55 else 87 else 48) + d
  }

  /** What a reader takes a digit for. */
  function DigitValue(c: Byte): int {
    if '0' as int <= c <= '9' as int then c - '0' as int
    else if 'A' as int <= c <= 'F' as int then 10 + c - 'A' as int
    else if 'a' as int <= c <= 'f' as int then 10 + c - 'a' as int
    else -1
  }

  /** What a reader takes a numeral for: most significant digit first. */
  function Value(digits: seq<Byte>, base: nat): int {
    if digits == [] then 0
    else Value(digits[..|digits| - 1], base) * base + DigitValue(digits[|digits| - 1])
  }

  /** A division step. */
  lemma Split(value: nat, base: nat)
    requires base >= 2
    ensures value == value / base * base + value % base && 0 <= value % base < base
    ensures value / base <= value && (value > 0 ==> value / base < value)
    ensures value < base <==> value / base == 0
    ensures value < base ==> value % base == value
  {
    var q, r := value / base, value % base;
    if q > 0 {
      Multiple(q, base);
      assert value == q * base + r;
    }
  }

  lemma Multiple(q: nat, base: nat)
    requires q > 0 && base >= 2
    ensures q * base > q && q * base >= base
  {
    assert q * base == q * (base - 1) + q;
    assert q * base == (q - 1) * base + base;
  }

  /** The digits of a value as divisions yield them, least significant first. */
  function LowFirst(value: nat, base: nat, upper: bool): (r: seq<Byte>)
    requires 2 <= base <= 16
    ensures r != [] && forall i :: 0 <= i < |r| ==> 0 <= DigitValue(r[i]) < base
    decreases value
  {
    Split(value, base);
    [Digit(value % base, upper)] + if value < base then [] else LowFirst(value / base, base, upper)
  }

  function Reversed(s: seq<Byte>): (r: seq<Byte>)
    ensures |r| == |s| && forall i :: 0 <= i < |s| ==> r[i] == s[|s| - 1 - i]
  {
    if s == [] then [] else Reversed(s[1..]) + [s[0]]
  }

  function Numeral(value: nat, base: nat, upper: bool): seq<Byte>
    requires 2 <= base <= 16
  {
    Reversed(LowFirst(value, base, upper))
  }

  /** %d: the sign and the numeral of the magnitude. */
  function Signed(num: Int32): seq<Byte> {
    (if num < 0 then ['-' as int] else []) + Numeral(Magnitude(num), 10, false)
  }

  function Magnitude(num: int): nat { if num < 0 then -num else num }

  /** A numeral reads back as its value, with no zero in front. */
  lemma {:induction false} NumeralReadsBack(value: nat, base: nat, upper: bool)
    requires 2 <= base <= 16
    ensures Value(Numeral(value, base, upper), base) == value
    ensures value > 0 ==> DigitValue(Numeral(value, base, upper)[0]) > 0
    decreases value
  {
    Split(value, base);
    var low := LowFirst(value, base, upper);
    var high := Reversed(low[1..]);
    assert Reversed(low)[..|low| - 1] == high;
    assert Value(Reversed(low), base) == Value(high, base) * base + DigitValue(low[0]);
    if value < base {
      assert high == [];
      assert Value(high, base) == 0;
    } else {
      NumeralReadsBack(value / base, base, upper);
    }
  }

  /** Reading a %d numeral, sign and all. */
  function SignedValue(s: seq<Byte>): int {
    if s != [] && s[0] == '-' as int then -Value(s[1..], 10) else Value(s, 10)
  }

  /** %d reads back for every int, the least one included, so no two ints print alike. */
  lemma SignedReadsBack(num: Int32)
    ensures SignedValue(Signed(num)) == num
  {
    var digits := Numeral(Magnitude(num), 10, false);
    NumeralReadsBack(Magnitude(num), 10, false);
    if num < 0 {
      assert Signed(num)[1..] == digits;
    } else {
      assert Signed(num) == digits && DigitValue(digits[0]) >= 0;
    }
  }

  function Power(base: nat, n: nat): nat {
    if n == 0 then 1 else base * Power(base, n - 1)
  }

  /** A value has at most `n` digits exactly when it is below the n-th power of the base. */
  lemma {:induction false} DigitCount(value: nat, base: nat, upper: bool, n: nat)
    requires 2 <= base <= 16 && n > 0
    ensures |LowFirst(value, base, upper)| <= n <==> value < Power(base, n)
    decreases n
  {
    Split(value, base);
    PowerGrows(base, n);
    if n == 1 {
      PowerOne(base);
      assert value >= base ==> |LowFirst(value / base, base, upper)| >= 1;
    } else if value < base {
      assert |LowFirst(value, base, upper)| == 1;
    } else {
      DigitCount(value / base, base, upper, n - 1);
      DivideBelow(value, base, Power(base, n - 1));
    }
  }

  lemma DivideBelow(value: nat, base: nat, limit: nat)
    requires base > 0
    ensures value / base < limit <==> value < base * limit
  {
    var q, r := value / base, value % base;
    assert value == base * q + r;
    if q < limit {
      assert base * (q + 1) <= base * limit;
    } else {
      assert base * q >= base * limit;
    }
  }

  lemma {:induction false} PowerGrows(base: nat, n: nat)
    requires base > 0
    ensures Power(base, n) >= 1 && (n > 0 ==> Power(base, n) >= base)
  {
    if n > 0 {
      PowerGrows(base, n - 1);
      Scaled(base, Power(base, n - 1));
    }
  }

  lemma PowerOne(base: nat)
    ensures Power(base, 1) == base
  {
    assert Power(base, 0) == 1;
  }

  lemma Scaled(a: nat, b: nat)
    requires b >= 1
    ensures a * b >= a
  {
    assert a * b == a * (b - 1) + a;
  }

  // ----- the format, character by character

  predicate Hex(c: Byte) { c == 'x' as int || c == 'X' as int }

  predicate Conversion(c: Byte) {
    c == 'c' as int || c == 's' as int || c == 'd' as int || c == 'u' as int || Hex(c)
  }

  /** The conversion finds an argument of the type it reads. */
  predicate Takes(c: Byte, a: Arg)
    requires Conversion(c)
  {
    if c == 'c' as int || c == 'd' as int then a.Int?
    else if c == 's' as int then a.Str?
    else a.Unsigned?
  }

  /** The text of one conversion, without the prefix of a hexadecimal one. */
  function Converted(c: Byte, a: Arg): seq<Byte>
    requires Conversion(c) && Takes(c, a)
  {
    if c == 'c' as int then [a.i % 256]
    else if c == 's' as int then a.s
    else if c == 'd' as int then Signed(a.i)
    else if c == 'u' as int then Numeral(a.u, 10, false)
    else Numeral(a.u, 16, c == 'X' as int)
  }

  function Prefix(c: Byte): (r: seq<Byte>)
    ensures |r| == if Hex(c) then 2 else 0
  {
    if Hex(c) then ['0' as int, 'x' as int] else []
  }

  predicate AtDouble(f: seq<Byte>) { |f| > 1 && f[0] == PERCENT && f[1] == PERCENT }

  predicate AtConversion(f: seq<Byte>) { |f| > 1 && f[0] == PERCENT && Conversion(f[1]) }

  /** Every conversion of the format has its argument. */
  predicate Suits(f: seq<Byte>, args: seq<Arg>) {
    if f == [] then true
    else if f[0] != PERCENT then Suits(f[1..], args)
    else if AtDouble(f) then Suits(f[2..], args)
    else if AtConversion(f) then args != [] && Takes(f[1], args[0]) && Suits(f[2..], args[1..])
    else true
  }

  /** What the format says should be written.  After an unknown conversion it is taken as it is. */
  function Render(f: seq<Byte>, args: seq<Arg>): seq<Byte>
    requires Suits(f, args)
  {
    if f == [] then []
    else if f[0] != PERCENT then [f[0]] + Render(f[1..], args)
    else if AtDouble(f) then [PERCENT] + Render(f[2..], args)
    else if AtConversion(f) then Prefix(f[1]) + Converted(f[1], args[0]) + Render(f[2..], args[1..])
    else f
  }

  /** The number of hexadecimal conversions. */
  function Hexes(f: seq<Byte>, args: seq<Arg>): nat
    requires Suits(f, args)
  {
    if f == [] then 0
    else if f[0] != PERCENT then Hexes(f[1..], args)
    else if AtDouble(f) then Hexes(f[2..], args)
    else if AtConversion(f) then (if Hex(f[1]) then 1 else 0) + Hexes(f[2..], args[1..])
    else 0
  }

  // ----- the format as printf takes it, piece by piece

  /** What is written, and the return value: the count, or -1 when it would pass INT_MAX. */
  datatype Outcome = Outcome(out: seq<Byte>, result: int)

  /** How far a literal piece goes: its first character, and on to the next percent sign. */
  function LiteralLength(f: seq<Byte>): (n: nat)
    requires f != []
    ensures 1 <= n <= |f| && (n < |f| ==> f[n] == PERCENT)
    ensures forall i :: 1 <= i < n ==> f[i] != PERCENT
  {
    if |f| == 1 || f[1] == PERCENT then 1 else 1 + LiteralLength(f[1..])
  }

  lemma LiteralLengthIs(f: seq<Byte>, n: nat)
    requires 1 <= n <= |f| && (n < |f| ==> f[n] == PERCENT)
    requires forall i :: 1 <= i < n ==> f[i] != PERCENT
    ensures n == LiteralLength(f)
  {
  }

  /** One piece: what it writes, what it counts for, and what is left to do. */
  datatype Piece = Piece(text: seq<Byte>, cost: nat, length: nat, taken: nat)

  function FirstPiece(f: seq<Byte>, args: seq<Arg>): (p: Piece)
    requires f != [] && Suits(f, args)
    ensures 0 < p.length <= |f| && p.taken <= |args|
  {
    if f[0] != PERCENT || AtDouble(f) then
      var skip := if f[0] == PERCENT then 1 else 0;
      var n := LiteralLength(f[skip..]);
      Piece(f[skip..][..n], n, skip + n, 0)
    else if AtConversion(f) then
      var text := Converted(f[1], args[0]);
      Piece(Prefix(f[1]) + text, |text|, 2, 1)
    else
      Piece(f, |f|, |f|, 0)
  }

  lemma Associative(a: seq<Byte>, b: seq<Byte>, c: seq<Byte>)
    ensures a + (b + c) == (a + b) + c
  {
  }

  lemma Regroup(all: seq<Byte>, head: seq<Byte>, rest: seq<Byte>, a: seq<Byte>, b: seq<Byte>, one: seq<Byte>)
    requires all == head + rest && rest == a + b && one == head + a
    ensures all == one + b
  {
    Associative(head, a, b);
  }

  /** What is left of the format after a piece has its arguments. */
  lemma {:induction false} LiteralRest(f: seq<Byte>, args: seq<Arg>, n: nat)
    requires n <= |f| && forall i :: 0 <= i < n ==> f[i] != PERCENT
    ensures Suits(f, args) <==> Suits(f[n..], args)
    ensures Suits(f, args) ==>
      Render(f, args) == f[..n] + Render(f[n..], args) && Hexes(f, args) == Hexes(f[n..], args)
    decreases n
  {
    if n > 0 {
      LiteralRest(f[1..], args, n - 1);
      assert f[1..][n - 1..] == f[n..];
      assert f[..n] == [f[0]] + f[1..][..n - 1];
      if Suits(f, args) {
        Associative([f[0]], f[1..][..n - 1], Render(f[n..], args));
      }
    } else {
      assert f[0..] == f;
    }
  }

  /** A piece is worth its part of the rendering. */
  lemma PieceRenders(f: seq<Byte>, args: seq<Arg>)
    requires f != [] && Suits(f, args)
    ensures var p := FirstPiece(f, args);
      && Suits(f[p.length..], args[p.taken..])
      && Render(f, args) == p.text + Render(f[p.length..], args[p.taken..])
      && |p.text| - p.cost == 2 * (Hexes(f, args) - Hexes(f[p.length..], args[p.taken..]))
  {
    var p := FirstPiece(f, args);
    assert args[0..] == args;
    if f[0] != PERCENT || AtDouble(f) {
      LiteralRenders(f, args);
    } else if !AtConversion(f) {
      assert f[p.length..] == [];
    }
  }

  lemma DoubleRenders(f: seq<Byte>, args: seq<Arg>)
    requires AtDouble(f) && Suits(f, args)
    ensures var p := FirstPiece(f, args); var rest := f[p.length..];
      && Suits(rest, args)
      && Render(f, args) == p.text + Render(rest, args)
      && Hexes(f, args) == Hexes(rest, args)
  {
    var n, tail := LiteralLength(f[1..]), f[2..];
    var text := tail[..n - 1];
    DoublePiece(f, args);
    DoubleUnfolds(f, args);
    LiteralRest(tail, args, n - 1);
    DoubleTails(f, n);
    Regroup(Render(f, args), [PERCENT], Render(tail, args), text, Render(tail[n - 1..], args), [PERCENT] + text);
  }

  lemma DoublePiece(f: seq<Byte>, args: seq<Arg>)
    requires AtDouble(f) && Suits(f, args)
    ensures var n := LiteralLength(f[1..]); FirstPiece(f, args) == Piece(f[1..][..n], n, 1 + n, 0)
  {
  }

  lemma DoubleUnfolds(f: seq<Byte>, args: seq<Arg>)
    requires AtDouble(f) && Suits(f, args)
    ensures Suits(f[2..], args) && Render(f, args) == [PERCENT] + Render(f[2..], args)
    ensures Hexes(f, args) == Hexes(f[2..], args)
  {
  }

  lemma DoubleTails(f: seq<Byte>, n: nat)
    requires AtDouble(f) && 1 <= n < |f|
    ensures f[2..][n - 1..] == f[1 + n..] && f[1..][..n] == [PERCENT] + f[2..][..n - 1]
  {
  }

  lemma LiteralRenders(f: seq<Byte>, args: seq<Arg>)
    requires f != [] && Suits(f, args) && (f[0] != PERCENT || AtDouble(f))
    ensures var p := FirstPiece(f, args); var rest := f[p.length..];
      && Suits(rest, args)
      && Render(f, args) == p.text + Render(rest, args)
      && Hexes(f, args) == Hexes(rest, args)
  {
    var p := FirstPiece(f, args);
    if AtDouble(f) {
      DoubleRenders(f, args);
    } else {
      assert f[0..] == f;
      LiteralRest(f, args, p.length);
    }
  }

  /** The formatter's loop from a position on, when `written` is counted already. */
  function Formatted(f: seq<Byte>, args: seq<Arg>, written: int): Outcome
    requires Suits(f, args)
    decreases |f|
  {
    if f == [] then Outcome([], written)
    else
      PieceRenders(f, args);
      var p := FirstPiece(f, args);
      if INT_MAX - written < p.cost then Outcome([], -1)
      else
        var rest := Formatted(f[p.length..], args[p.taken..], written + p.cost);
        Outcome(p.text + rest.out, rest.result)
  }

  /** One turn of the loop. */
  lemma RunStep(f: seq<Byte>, args: seq<Arg>, written: int)
    requires f != [] && Suits(f, args)
    ensures var p := FirstPiece(f, args);
      && Suits(f[p.length..], args[p.taken..])
      && var rest := Formatted(f[p.length..], args[p.taken..], written + p.cost);
      Formatted(f, args, written) ==
        if INT_MAX - written < p.cost then Outcome([], -1) else Outcome(p.text + rest.out, rest.result)
  {
    PieceRenders(f, args);
  }

  /** All of it is written and counted, or the count passes INT_MAX and only a beginning is. */
  predicate Agrees(run: Outcome, all: seq<Byte>, count: int, written: int) {
    && run.out <= all
    && (run.result >= 0 <==> written + count <= INT_MAX)
    && (run.result >= 0 ==> run.out == all && run.result == written + count)
    && (run.result < 0 ==> run.result == -1)
  }

  lemma AgreesBehind(text: seq<Byte>, cost: nat, run: Outcome, all: seq<Byte>, count: int, written: int)
    requires Agrees(run, all, count, written + cost)
    ensures Agrees(Outcome(text + run.out, run.result), text + all, cost + count, written)
  {
  }

  /** What the formatter counts for a format. */
  function Count(f: seq<Byte>, args: seq<Arg>): int
    requires Suits(f, args)
  {
    |Render(f, args)| - 2 * Hexes(f, args)
  }

  /** Rendering and count of a format, and what the formatter makes of it.  The marker keeps the
      recursive functions out of the induction over the pieces. */
  ghost predicate Means(f: seq<Byte>, args: seq<Arg>, written: int, run: Outcome, all: seq<Byte>, count: int)
    requires Suits(f, args)
  {
    forall i {:trigger Ask(Runs, i)} :: Ask(Runs, i) ==>
      run == Formatted(f, args, written) && all == Render(f, args) && count == Count(f, args)
  }

  lemma MeansNothing(f: seq<Byte>, args: seq<Arg>, written: int)
    requires f == []
    ensures Suits(f, args) && Means(f, args, written, Outcome([], written), [], 0)
  {
  }

  /** The first piece before what is left to do. */
  lemma MeansPiece(f: seq<Byte>, args: seq<Arg>, written: int, p: Piece, rest: seq<Byte>, restArgs: seq<Arg>,
                   tail: Outcome, more: seq<Byte>, n: int)
    requires f != [] && Suits(f, args) && p == FirstPiece(f, args)
    requires rest == f[p.length..] && restArgs == args[p.taken..] && Suits(rest, restArgs)
    requires Means(rest, restArgs, written + p.cost, tail, more, n)
    ensures Means(f, args, written,
                  if INT_MAX - written < p.cost then Outcome([], -1) else Outcome(p.text + tail.out, tail.result),
                  p.text + more, p.cost + n)
  {
    assert Ask(Runs, 0);
    PieceRenders(f, args);
    RunStep(f, args, written);
  }

  lemma PieceSuits(f: seq<Byte>, args: seq<Arg>) returns (p: Piece, rest: seq<Byte>, restArgs: seq<Arg>)
    requires f != [] && Suits(f, args)
    ensures p == FirstPiece(f, args) && p.length <= |f| && p.taken <= |args|
    ensures rest == f[p.length..] && restArgs == args[p.taken..] && Suits(rest, restArgs) && |rest| < |f|
  {
    p := FirstPiece(f, args);
    PieceRenders(f, args);
    rest, restArgs := f[p.length..], args[p.taken..];
  }

  lemma {:induction false} RunTrace(f: seq<Byte>, args: seq<Arg>, written: int)
    returns (run: Outcome, all: seq<Byte>, count: int)
    requires Suits(f, args) && 0 <= written
    ensures Means(f, args, written, run, all, count) && count >= 0
    ensures written <= INT_MAX ==> Agrees(run, all, count, written)
    decreases |f|
  {
    if f == [] {
      run, all, count := Outcome([], written), [], 0;
      MeansNothing(f, args, written);
    } else {
      var p, rest, restArgs := PieceSuits(f, args);
      var tail, more, n := RunTrace(rest, restArgs, written + p.cost);
      MeansPiece(f, args, written, p, rest, restArgs, tail, more, n);
      run := if INT_MAX - written < p.cost then Outcome([], -1) else Outcome(p.text + tail.out, tail.result);
      all, count := p.text + more, p.cost + n;
      if p.cost <= INT_MAX - written {
        AgreesBehind(p.text, p.cost, tail, more, n, written);
      }
    }
  }

  /** The formatter writes what the format says and returns its length less two for each
      hexadecimal prefix, exactly when that count is an int.  Otherwise it returns -1 and has
      written the beginning of it. */
  lemma RunRenders(f: seq<Byte>, args: seq<Arg>, written: int)
    requires Suits(f, args) && 0 <= written <= INT_MAX
    ensures Agrees(Formatted(f, args, written), Render(f, args), Count(f, args), written)
  {
    var run, all, count := RunTrace(f, args, written);
    assert Ask(Runs, 0);
  }
}
