/** The text terminal (kernel/arch/i386/tty.c). */
module Terminal {
  import opened ScreenSpec
  import Memmove

  class Screen {
    var row: nat
    var column: nat
    const buffer: array<nat>
    const lineLength: array<nat>
    /** The rows on the screen, the cursor's row last. */
    ghost var rows: seq<seq<Byte>>

    /** The cells are those of `rs`; rows below them are blank. */
    ghost predicate Drawn(rs: seq<seq<Byte>>)
      reads buffer
    {
      && buffer.Length == WIDTH * HEIGHT
      && forall i :: 0 <= i < WIDTH * HEIGHT ==> buffer[i] == Cell(rs, i / WIDTH, i % WIDTH)
    }

    /** What a reader of the 2000 cells sees: at row y and column x the character of that row in the
        low byte and the colour 7 above it, and blanks in colour 7 elsewhere. */
    ghost predicate Reads(rs: seq<seq<Byte>>)
      reads buffer
    {
      && buffer.Length == 2000
      && forall i :: 0 <= i < 2000 ==>
           var y, x := i / 80, i % 80;
           if y < |rs| && x < |rs[y]| then buffer[i] % 256 == rs[y][x] && buffer[i] / 256 == 7
           else buffer[i] == 0x0720
    }

    lemma DrawnReads(rs: seq<seq<Byte>>)
      requires Drawn(rs)
      ensures Reads(rs)
    {
      forall i | 0 <= i < 2000 && i / 80 < |rs| && i % 80 < |rs[i / 80]|
        ensures buffer[i] % 256 == rs[i / 80][i % 80] && buffer[i] / 256 == 7
      {
        EntryReads(rs[i / 80][i % 80]);
      }
    }

    /** The row lengths are those of `rs`; rows below them are empty. */
    ghost predicate Measured(rs: seq<seq<Byte>>)
      reads lineLength
    {
      && lineLength.Length == HEIGHT
      && (forall y :: 0 <= y < HEIGHT ==> lineLength[y] == if y < |rs| then |rs[y]| else 0)
      && forall y :: 0 <= y < |rs| ==> |rs[y]| <= WIDTH
    }

    ghost predicate Shows(rs: seq<seq<Byte>>)
      reads buffer, lineLength
    {
      buffer != lineLength && |rs| <= HEIGHT && Drawn(rs) && Measured(rs)
    }

    /** The cursor is behind the last character of the last row. */
    ghost predicate Placed()
      reads this, buffer, lineLength
    {
      Shows(rows) && rows != [] && row == |rows| - 1 && column == |rows[row]|
    }

    /** And it is on the screen. */
    ghost predicate Valid()
      reads this, buffer, lineLength
    {
      Placed() && column < WIDTH
    }

    /** terminal_initialize. */
    constructor ()
      ensures Valid() && rows == [[]] && fresh(buffer) && fresh(lineLength)
      ensures Reads([[]])
    {
      row, column := 0, 0;
      buffer := new nat[WIDTH * HEIGHT](_ => 0);
      lineLength := new nat[HEIGHT](_ => 0);
      rows := [[]];
      new;
      Clear();
      DrawnReads([[]]);
    }

    method Clear()
      requires buffer.Length == WIDTH * HEIGHT
      modifies buffer
      ensures Drawn([[]])
    {
      var y := 0;
      while y < HEIGHT
        invariant y <= HEIGHT && forall i :: 0 <= i < y * WIDTH ==> buffer[i] == BLANK
      {
        ClearRow(y);
        y := y + 1;
      }
      forall i | 0 <= i < WIDTH * HEIGHT ensures buffer[i] == Cell([[]], i / WIDTH, i % WIDTH) {
      }
    }

    /** The inner loop of terminal_initialize and the one at the end of terminal_scrollup. */
    method ClearRow(y: nat)
      requires y < HEIGHT && buffer.Length == WIDTH * HEIGHT
      modifies buffer
      ensures forall i :: 0 <= i < WIDTH * HEIGHT ==>
        buffer[i] == if y * WIDTH <= i < (y + 1) * WIDTH then BLANK else old(buffer[i])
    {
      var x := 0;
      while x < WIDTH
        invariant x <= WIDTH
        invariant forall i :: 0 <= i < WIDTH * HEIGHT ==>
          buffer[i] == if y * WIDTH <= i < y * WIDTH + x then BLANK else old(buffer[i])
      {
        buffer[y * WIDTH + x] := BLANK;
        x := x + 1;
      }
    }

    /** The row lengths move up with their rows: the swaps carry the 0 put first to the end. */
    method ScrollLengths(ghost rs: seq<seq<Byte>>)
      requires Measured(rs) && |rs| == HEIGHT
      modifies lineLength
      ensures Measured(rs[1..])
    {
      lineLength[0] := 0;
      var i := 0;
      while i < HEIGHT - 1
        invariant 0 <= i <= HEIGHT - 1 && lineLength[i] == 0
        invariant forall y :: 0 <= y < i ==> lineLength[y] == |rs[y + 1]|
        invariant forall y :: i < y < HEIGHT ==> lineLength[y] == |rs[y]|
      {
        var swap := lineLength[i];
        lineLength[i] := lineLength[i + 1];
        lineLength[i + 1] := swap;
        i := i + 1;
      }
    }

    /** terminal_scrollup, when the cursor has left the last of 25 rows. */
    method ScrollUp(ghost rs: seq<seq<Byte>>)
      requires Shows(rs) && |rs| == HEIGHT && row == HEIGHT
      modifies this`row, buffer, lineLength
      ensures Shows(rs[1..]) && row == HEIGHT - 1
    {
      Memmove.Move(buffer, 0, WIDTH, WIDTH * (HEIGHT - 1));
      ScrollLengths(rs);
      ClearRow(HEIGHT - 1);
      row := row - 1;
      forall i | 0 <= i < WIDTH * HEIGHT ensures buffer[i] == Cell(rs[1..], i / WIDTH, i % WIDTH) {
        if i < WIDTH * (HEIGHT - 1) {
          assert buffer[i] == old(buffer[i + WIDTH]);
          assert (i + WIDTH) / WIDTH == i / WIDTH + 1 && (i + WIDTH) % WIDTH == i % WIDTH;
        }
      }
    }

    /** The end of a row: the cursor goes to the next one, which scrolls if there is none. */
    method NextRow(ghost rs: seq<seq<Byte>>)
      requires Shows(rs) && rs != [] && row == |rs| - 1
      modifies this`row, this`column, buffer, lineLength
      ensures var next := Window(rs + [[]]); Shows(next) && row == |next| - 1
      ensures column == 0
    {
      column := 0;
      row := row + 1;
      if row == HEIGHT {
        ScrollUp(rs);
        EmptyRow(rs[1..]);
        assert Window(rs + [[]]) == rs[1..] + [[]];
      } else {
        EmptyRow(rs);
      }
    }

    /** An empty row looks like no row. */
    lemma EmptyRow(rs: seq<seq<Byte>>)
      requires Shows(rs) && |rs| < HEIGHT
      ensures Shows(rs + [[]])
    {
      forall i | 0 <= i < WIDTH * HEIGHT ensures Cell(rs + [[]], i / WIDTH, i % WIDTH) == Cell(rs, i / WIDTH, i % WIDTH) {
      }
    }

    /** terminal_putentryat with the cursor's place and the character `c`. */
    method PutEntry(c: Byte)
      requires Valid()
      modifies buffer
      ensures Drawn(Typed(c)) && buffer[row * WIDTH + column] == Entry(c)
    {
      buffer[row * WIDTH + column] := Entry(c);
      forall i | 0 <= i < WIDTH * HEIGHT ensures buffer[i] == Cell(Typed(c), i / WIDTH, i % WIDTH) {
        assert i == i / WIDTH * WIDTH + i % WIDTH;
      }
    }

    /** The rows with one more character on the last. */
    ghost function Typed(c: Byte): seq<seq<Byte>>
      reads this
      requires row < |rows|
    {
      rows[row := rows[row] + [c]]
    }

    /** terminal_putchar: newline and carriage return go to the next row, everything else is shown. */
    method PutChar(c: Byte)
      requires Valid()
      modifies this, buffer, lineLength
      ensures Valid() && rows == Show(old(rows), c) && Reads(rows)
    {
      if Breaks(c) {
        NextRow(rows);
        rows := Show(rows, c);
      } else {
        PutVisible(c);
      }
      DrawnReads(rows);
    }

    method PutVisible(c: Byte)
      requires Valid() && !Breaks(c)
      modifies this, buffer, lineLength
      ensures Valid() && rows == Show(old(rows), c)
    {
      ghost var rs := Typed(c);
      TypeOne(rows, c);
      PutEntry(c);
      column := column + 1;
      if column == WIDTH {
        FinishRow(rs);
        assert lineLength[row] == column;
      } else {
        rows := rs;
      }
      lineLength[row] := column;
    }

    /** The row is full. */
    method FinishRow(ghost rs: seq<seq<Byte>>)
      requires Measured(rows) && Drawn(rs) && buffer != lineLength
      requires rows != [] && |rows| <= HEIGHT && row == |rows| - 1 && |rs| == |rows|
      requires |rows[row]| == WIDTH - 1 && |rs[row]| == WIDTH && forall y :: 0 <= y < row ==> rs[y] == rows[y]
      modifies this, buffer, lineLength
      ensures Valid() && rows == Window(rs + [[]]) && column == 0
    {
      lineLength[row] := lineLength[row] + 1;
      assert Measured(rs);
      NextRow(rs);
      rows := Window(rs + [[]]);
    }

    /** terminal_write, up to the hardware cursor. */
    method Write(data: seq<Byte>)
      requires Valid()
      modifies this, buffer, lineLength
      ensures Valid() && rows == ShowAll(old(rows), data) && Reads(rows)
    {
      var i := 0;
      while i < |data|
        invariant i <= |data| && Valid() && rows == ShowAll(old(rows), data[..i])
      {
        assert data[..i + 1][..i] == data[..i];
        PutChar(data[i]);
        i := i + 1;
      }
      assert data[..i] == data;
      DrawnReads(rows);
    }

    /** terminal_backspace.  It takes back the last character of the row, or goes back to the end
        of the row before.  The cursor stays on the screen except when that row is full. */
    method Backspace()
      requires Valid()
      modifies this, buffer, lineLength
      ensures Placed()
      ensures rows == Back(old(rows)) && Reads(rows)
      ensures Valid() <==> !(old(column) == 0 && old(row) > 0 && old(lineLength[row - 1]) == WIDTH)
    {
      if column == 0 {
        if row == 0 {
          DrawnReads(rows);
          return;
        }
        row := row - 1;
        column := lineLength[row];
        rows := rows[..row + 1];
        DrawnReads(rows);
        return;
      }
      EraseLast();
      column := column - 1;
      lineLength[row] := column;
      rows := rows[row := rows[row][..column]];
      DrawnReads(rows);
    }

    method EraseLast()
      requires Valid() && column > 0
      modifies buffer
      ensures Drawn(rows[row := rows[row][..column - 1]])
    {
      ghost var rs := rows[row := rows[row][..column - 1]];
      buffer[row * WIDTH + column - 1] := BLANK;
      forall i | 0 <= i < WIDTH * HEIGHT ensures buffer[i] == Cell(rs, i / WIDTH, i % WIDTH) {
        assert i == i / WIDTH * WIDTH + i % WIDTH;
      }
    }
  }
}
