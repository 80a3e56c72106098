/** printf and its conversions (libc/stdio/printf.c), writing to the terminal. */
module Printf {
  import opened Machine
  import opened Markers
  import opened ScreenSpec
  import opened FormatSpec
  import Terminal

  method Store(buffer: array<Byte>, start: nat, pos: nat, c: Byte)
    requires start <= pos < buffer.Length
    modifies buffer
    ensures buffer[start..pos + 1] == old(buffer[start..pos]) + [c]
    ensures buffer[..start] == old(buffer[..start])
  {
    buffer[pos] := c;
  }

  /** The least significant digit and the rest. */
  method NextDigit(v: nat, base: nat, upper: bool) returns (c: Byte, rest: nat)
    requires 2 <= base <= 16
    ensures LowFirst(v, base, upper) == [c] + if rest != 0 then LowFirst(rest, base, upper) else []
    ensures rest != 0 ==> rest < v
  {
    Split(v, base);
    c, rest := Digit(v % base, upper), v / base;
  }

  lemma NextLow(low: seq<Byte>, n: nat, c: Byte, rest: seq<Byte>)
    requires n <= |low| && low[n..] == [c] + rest
    ensures n < |low| && low[..n + 1] == low[..n] + [c] && low[n + 1..] == rest
  {
    assert low[n] == low[n..][0] && low[n + 1..] == low[n..][1..];
  }

  /** One turn of the digit loop, when `low` are the digits of the whole value. */
  method PutDigit(buffer: array<Byte>, start: nat, pos: nat, v: nat, base: nat, upper: bool, ghost low: seq<Byte>)
    returns (rest: nat)
    requires start <= pos < buffer.Length && 2 <= base <= 16 && pos - start <= |low|
    requires buffer[start..pos] == low[..pos - start] && low[pos - start..] == LowFirst(v, base, upper)
    modifies buffer
    ensures pos + 1 - start <= |low| && buffer[start..pos + 1] == low[..pos + 1 - start]
    ensures low[pos + 1 - start..] == if rest != 0 then LowFirst(rest, base, upper) else []
    ensures rest != 0 ==> rest < v
    ensures buffer[..start] == old(buffer[..start])
  {
    var c;
    c, rest := NextDigit(v, base, upper);
    Store(buffer, start, pos, c);
    NextLow(low, pos - start, c, if rest != 0 then LowFirst(rest, base, upper) else []);
  }

  /** The digit loop: least significant digit first, until the buffer is full. */
  method PutDigits(buffer: array<Byte>, start: nat, value: Word, base: nat, upper: bool)
    returns (pos: nat, full: bool)
    requires start <= buffer.Length && 2 <= base <= 16
    modifies buffer
    ensures full <==> start + |LowFirst(value, base, upper)| > buffer.Length
    ensures !full ==>
      && pos == start + |LowFirst(value, base, upper)|
      && buffer[start..pos] == LowFirst(value, base, upper)
    ensures buffer[..start] == old(buffer[..start])
  {
    ghost var low := LowFirst(value, base, upper);
    pos := start;
    var v: nat := value;
    var more := true;
    while more
      invariant start <= pos <= buffer.Length
      invariant pos - start <= |low| && buffer[start..pos] == low[..pos - start]
      invariant low[pos - start..] == if more then LowFirst(v, base, upper) else []
      invariant buffer[..start] == old(buffer[..start])
      decreases more, v
    {
      if pos >= buffer.Length {
        return pos, true;
      }
      v := PutDigit(buffer, start, pos, v, base, upper, low);
      pos := pos + 1;
      more := v != 0;
    }
    full := false;
  }

  /** The swaps of the in-place reversal. */
  method SwapEnds(buffer: array<Byte>, start: nat, pos: nat)
    requires start < pos <= buffer.Length
    modifies buffer
    ensures forall k :: 0 <= k < start ==> buffer[k] == old(buffer[k])
    ensures forall k :: start <= k < pos ==> buffer[k] == old(buffer[start + pos - 1 - k])
  {
    var i, j := start, pos - 1;
    while i < j
      invariant start <= i <= j + 1 <= pos && i - start == pos - 1 - j
      invariant forall k :: 0 <= k < start ==> buffer[k] == old(buffer[k])
      invariant forall k :: start <= k < i || j < k < pos ==> buffer[k] == old(buffer[start + pos - 1 - k])
      invariant forall k :: i <= k <= j ==> buffer[k] == old(buffer[k])
    {
      buffer[i], buffer[j] := buffer[j], buffer[i];
      i := i + 1;
      j := j - 1;
    }
  }

  lemma ReversedIs(s: seq<Byte>, t: seq<Byte>)
    requires |s| == |t| && forall k :: 0 <= k < |s| ==> t[k] == s[|s| - 1 - k]
    ensures t == Reversed(s)
  {
  }

  /** The in-place reversal after the digit loop. */
  method ReverseDigits(buffer: array<Byte>, start: nat, pos: nat)
    requires start < pos <= buffer.Length
    modifies buffer
    ensures buffer[start..pos] == Reversed(old(buffer[start..pos]))
    ensures buffer[..start] == old(buffer[..start])
  {
    ghost var was := buffer[start..pos];
    SwapEnds(buffer, start, pos);
    forall k | 0 <= k < |was| ensures buffer[start..pos][k] == was[|was| - 1 - k] {
      assert buffer[start + k] == old(buffer[pos - 1 - k]);
    }
    ReversedIs(was, buffer[start..pos]);
  }

  /** A numeral in a buffer of its own; the buffers of the three conversions are always enough. */
  method PutNumeral(buffer: array<Byte>, start: nat, value: Word, base: nat, upper: bool)
    returns (pos: nat, full: bool)
    requires base == 10 || base == 16
    requires buffer.Length - start >= if base == 10 then 10 else 8
    modifies buffer
    ensures !full && pos <= buffer.Length
    ensures buffer[..pos] == old(buffer[..start]) + Numeral(value, base, upper)
  {
    ghost var low := LowFirst(value, base, upper);
    WordFits(value, base, upper);
    pos, full := PutDigits(buffer, start, value, base, upper);
    assert buffer[start..pos] == low;
    ReverseDigits(buffer, start, pos);
    assert buffer[start..pos] == Numeral(value, base, upper);
    Slices(buffer, start, pos);
  }

  lemma Slices(buffer: array<Byte>, i: nat, j: nat)
    requires i <= j <= buffer.Length
    ensures buffer[..j] == buffer[..i] + buffer[i..j]
  {
  }

  /** No 32-bit value has more than ten decimal or eight hexadecimal digits. */
  lemma WordFits(value: Word, base: nat, upper: bool)
    requires base == 10 || base == 16
    ensures |LowFirst(value, base, upper)| <= if base == 10 then 10 else 8
  {
    if base == 10 {
      DigitCount(value, 10, upper, 10);
      TenthPower();
    } else {
      DigitCount(value, 16, upper, 8);
      EighthPower();
    }
  }

  lemma TenthPower()
    ensures Power(10, 10) == 10_000_000_000
  {
    assert Power(10, 5) == 100_000;
    assert Power(10, 10) == 100_000 * Power(10, 5);
  }

  lemma EighthPower()
    ensures Power(16, 8) == 0x1_0000_0000
  {
    assert Power(16, 4) == 0x1_0000;
    assert Power(16, 8) == 0x1_0000 * Power(16, 4);
  }

  /** The conversion of a negative int before its digits: negation without overflow. */
  function Unsigned32(i: int): Word { i % 0x1_0000_0000 }

  lemma OneFurther(data: seq<Byte>, i: nat)
    requires i < |data|
    ensures data[..i + 1] == data[..i] + [data[i]]
  {
  }

  lemma ShowMore(shown: seq<seq<Byte>>, data: seq<Byte>, i: nat)
    requires shown != [] && i < |data|
    ensures ShowAll(shown, data[..i + 1]) == ShowAll(ShowAll(shown, data[..i]), [data[i]])
  {
    var front, c := data[..i], [data[i]];
    assert data[..i + 1] == front + c by { OneFurther(data, i); }
    ShowConcat(shown, front, c);
  }

  /** print: one character at a time. */
  method Print(screen: Terminal.Screen, data: seq<Byte>)
    requires screen.Valid()
    modifies screen, screen.buffer, screen.lineLength
    ensures screen.Valid() && screen.rows == ShowAll(old(screen.rows), data)
  {
    var i := 0;
    while i < |data|
      invariant i <= |data| && screen.Valid() && screen.rows == ShowAll(old(screen.rows), data[..i])
    {
      ShowMore(old(screen.rows), data, i);
      screen.Write([data[i]]);
      i := i + 1;
    }
    assert data[..i] == data;
  }

  /** The text of one conversion and whether its digit buffer filled up. */
  method Convert(c: Byte, a: Arg) returns (text: seq<Byte>, full: bool)
    requires Conversion(c) && Takes(c, a)
    ensures !full && text == Converted(c, a)
  {
    full := false;
    var pos := 0;
    if c == 'c' as int {
      text := [a.i % 256];
    } else if c == 's' as int {
      text := a.s;
    } else if c == 'd' as int {
      text, full := ConvertInt(a.i);
    } else if c == 'u' as int {
      var buffer := new Byte[10](_ => 0);
      pos, full := PutNumeral(buffer, 0, a.u, 10, false);
      text := buffer[..pos];
    } else {
      var buffer := new Byte[8](_ => 0);
      pos, full := PutNumeral(buffer, 0, a.u, 16, c == 'X' as int);
      text := buffer[..pos];
    }
  }

  lemma NegationFits(num: Int32)
    requires num < 0
    ensures Unsigned32(Unsigned32(-(num + 1)) + 1) == Magnitude(num)
  {
    var m: int := -(num + 1);
    assert 0 <= m < 0x8000_0000;
  }

  method ConvertInt(num: Int32) returns (text: seq<Byte>, full: bool)
    ensures !full && text == Signed(num)
  {
    var buffer := new Byte[11](_ => 0);
    var pos := 0;
    var value: Word;
    if num < 0 {
      NegationFits(num);
      buffer[pos] := '-' as int;
      pos := pos + 1;
      value := Unsigned32(Unsigned32(-(num + 1)) + 1);
    } else {
      value := num;
    }
    assert value == Magnitude(num) && buffer[..pos] == if num < 0 then ['-' as int] else [];
    pos, full := PutNumeral(buffer, pos, value, 10, false);
    text := buffer[..pos];
  }

  method MeasureLiteral(f: seq<Byte>) returns (amount: nat)
    requires f != []
    ensures amount == LiteralLength(f)
  {
    amount := 1;
    while amount < |f| && f[amount] != PERCENT
      invariant 1 <= amount <= |f| && forall i :: 1 <= i < amount ==> f[i] != PERCENT
    {
      amount := amount + 1;
    }
    LiteralLengthIs(f, amount);
  }

  /** One turn of the format loop up to the writing: what is to be written, what it counts for and
      how far the format and the arguments move on. */
  method NextPiece(f: seq<Byte>, args: seq<Arg>) returns (p: Piece)
    requires f != [] && Suits(f, args)
    ensures p == FirstPiece(f, args)
  {
    if f[0] != PERCENT || AtDouble(f) {
      var skip := 0;
      if f[0] == PERCENT {
        skip := 1;
      }
      var amount := MeasureLiteral(f[skip..]);
      p := Piece(f[skip..][..amount], amount, skip + amount, 0);
    } else if AtConversion(f) {
      var text, full := Convert(f[1], args[0]);
      p := Piece(Prefix(f[1]) + text, |text|, 2, 1);
    } else {
      p := Piece(f, |f|, |f|, 0);
    }
  }

  /** printf.  The screen shows what the format says, and the result is its length less two for each
      hexadecimal prefix, when that is an int. */
  method Printf(screen: Terminal.Screen, format: Text, args: seq<Arg>) returns (result: int)
    requires screen.Valid() && Suits(format, args)
    modifies screen, screen.buffer, screen.lineLength
    ensures var run := Formatted(format, args, 0);
      screen.Valid() && screen.rows == ShowAll(old(screen.rows), run.out) && result == run.result
    ensures var all := Render(format, args); var count := |all| - 2 * Hexes(format, args);
      if count <= 0x7FFF_FFFF then screen.rows == ShowAll(old(screen.rows), all) && result == count else result == -1
  {
    result := FormatLoop(screen, format, args);
    RunRenders(format, args, 0);
  }

  /** The loop over the format. */
  method FormatLoop(screen: Terminal.Screen, format: Text, args: seq<Arg>) returns (result: int)
    requires screen.Valid() && Suits(format, args)
    modifies screen, screen.buffer, screen.lineLength
    ensures var run := Formatted(format, args, 0);
      screen.Valid() && screen.rows == ShowAll(old(screen.rows), run.out) && result == run.result
  {
    var f: seq<Byte> := format;
    var left, written := args, 0;
    ghost var run := Formatted(format, args, 0);
    ghost var goal := ShowAll(screen.rows, run.out);
    assert ToDo(screen.rows, f, left, written, goal, run.result);
    while f != []
      invariant screen.Valid() && Suits(f, left) && 0 <= written <= INT_MAX
      invariant ToDo(screen.rows, f, left, written, goal, run.result)
      decreases |f|
    {
      var maxrem := INT_MAX - written;
      var p := NextPiece(f, left);
      PieceStep(screen.rows, f, left, written, goal, run.result);
      if maxrem < p.cost {
        return -1;
      }
      Print(screen, p.text);
      f, left, written := f[p.length..], left[p.taken..], written + p.cost;
    }
    NothingToDo(screen.rows, left, written, goal, run.result);
    return written;
  }

  /** From these rows and this place in the format the screen will come to `goal`. */
  ghost predicate ToDo(rows: seq<seq<Byte>>, f: seq<Byte>, args: seq<Arg>, written: int,
                       goal: seq<seq<Byte>>, result: int)
    requires rows != [] && Suits(f, args)
  {
    forall i {:trigger Ask(Runs, i)} :: Ask(Runs, i) ==> Leads(rows, Formatted(f, args, written), goal, result)
  }

  lemma NothingToDo(rows: seq<seq<Byte>>, args: seq<Arg>, written: int, goal: seq<seq<Byte>>, result: int)
    requires rows != [] && ToDo(rows, [], args, written, goal, result)
    ensures goal == rows && result == written
  {
    assert Ask(Runs, 0);
  }

  ghost predicate Leads(rows: seq<seq<Byte>>, run: Outcome, goal: seq<seq<Byte>>, result: int)
    requires rows != []
  {
    ShowAll(rows, run.out) == goal && run.result == result
  }

  lemma LeadsOn(rows: seq<seq<Byte>>, text: seq<Byte>, rest: Outcome, goal: seq<seq<Byte>>, result: int)
    requires rows != [] && Leads(rows, Outcome(text + rest.out, rest.result), goal, result)
    ensures Leads(ShowAll(rows, text), rest, goal, result)
  {
    ShowConcat(rows, text, rest.out);
  }

  lemma PieceStep(rows: seq<seq<Byte>>, f: seq<Byte>, args: seq<Arg>, written: int,
                  goal: seq<seq<Byte>>, result: int)
    requires rows != [] && f != [] && Suits(f, args) && ToDo(rows, f, args, written, goal, result)
    ensures var p := FirstPiece(f, args);
      if INT_MAX - written < p.cost then goal == rows && result == -1
      else
        && Suits(f[p.length..], args[p.taken..])
        && ToDo(ShowAll(rows, p.text), f[p.length..], args[p.taken..], written + p.cost, goal, result)
  {
    assert Ask(Runs, 0);
    var p := FirstPiece(f, args);
    RunStep(f, args, written);
    var run := Formatted(f, args, written);
    assert Leads(rows, run, goal, result);
    if p.cost <= INT_MAX - written {
      var rest := Formatted(f[p.length..], args[p.taken..], written + p.cost);
      assert run == Outcome(p.text + rest.out, rest.result);
      LeadsOn(rows, p.text, rest, goal, result);
    } else {
      assert run == Outcome([], -1);
    }
  }

  /** A whole formatted line on a fresh screen shows the last 25 rows of what the format says, as
      long as its count is an int. */
  method PrintfOnce(format: Text, args: seq<Arg>) returns (screen: Terminal.Screen, result: int)
    requires Suits(format, args) && |Render(format, args)| <= INT_MAX
    ensures screen.Valid() && fresh(screen)
    ensures screen.rows == Window(Layout(Render(format, args))) && screen.Reads(screen.rows)
    ensures result == |Render(format, args)| - 2 * Hexes(format, args)
  {
    screen := new Terminal.Screen();
    result := Printf(screen, format, args);
    ScreenIsWindow(Render(format, args));
    screen.DrawnReads(screen.rows);
  }
}
