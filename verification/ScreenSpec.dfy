/** Text laid out on rows of 80 cells, and the last 25 of those rows as a window. */
module ScreenSpec {

  const WIDTH: nat := 80
  const HEIGHT: nat := 25

  type Byte = b: int | 0 <= b < 256

  /** Newline and carriage return both start a new row. */
  predicate Breaks(c: Byte) { c == 10 || c == 13 }

  /** One more character: a row is left when it is broken off or full. */
  function Type(rows: seq<seq<Byte>>, c: Byte): (r: seq<seq<Byte>>)
    requires rows != []
    ensures |rows| <= |r| <= |rows| + 1
  {
    var k := |rows| - 1;
    if Breaks(c) then rows + [[]]
    else
      var line := rows[k] + [c];
      rows[..k] + (if |line| == WIDTH then [line, []] else [line])
  }

  /** The rows of a whole text, however many there are. */
  function Layout(text: seq<Byte>): (r: seq<seq<Byte>>)
    ensures r != []
  {
    if text == [] then [[]] else Type(Layout(text[..|text| - 1]), text[|text| - 1])
  }

  function Window(rows: seq<seq<Byte>>): (r: seq<seq<Byte>>)
    ensures |r| == if |rows| > HEIGHT then HEIGHT else |rows|
  {
    if |rows| > HEIGHT then rows[|rows| - HEIGHT..] else rows
  }

  /** What the screen shows after one more character, from what it showed before. */
  function Show(shown: seq<seq<Byte>>, c: Byte): seq<seq<Byte>>
    requires shown != []
  {
    Window(Type(shown, c))
  }

  lemma TypeOne(shown: seq<seq<Byte>>, c: Byte)
    requires shown != [] && |shown| <= HEIGHT && !Breaks(c)
    ensures var k := |shown| - 1; var rows := shown[k := shown[k] + [c]];
      Show(shown, c) == if |rows[k]| == WIDTH then Window(rows + [[]]) else rows
  {
    var k := |shown| - 1;
    var line := shown[k] + [c];
    var rows := shown[k := line];
    assert rows == shown[..k] + [line];
    assert rows + [[]] == shown[..k] + [line, []];
  }

  /** terminal_backspace: the last character of the row goes, or else the empty row itself. */
  function Back(shown: seq<seq<Byte>>): seq<seq<Byte>>
    requires shown != []
  {
    var k := |shown| - 1;
    if shown[k] != [] then shown[k := shown[k][..|shown[k]| - 1]]
    else if k > 0 then shown[..k]
    else shown
  }

  /** Backspace takes back a character except one that filled its row and a line break that
      scrolled the screen. */
  lemma BackUndoes(shown: seq<seq<Byte>>, c: Byte)
    requires shown != [] && |shown| <= HEIGHT && |shown[|shown| - 1]| < WIDTH
    ensures Back(Show(shown, c)) == shown <==>
      if Breaks(c) then |shown| < HEIGHT else |shown[|shown| - 1]| + 1 < WIDTH
  {
    var k := |shown| - 1;
    if !Breaks(c) {
      TypeOne(shown, c);
      var rows := shown[k := shown[k] + [c]];
      if |rows[k]| == WIDTH {
        assert Back(Window(rows + [[]]))[|Back(Window(rows + [[]]))| - 1] == rows[k];
      } else {
        assert Back(rows)[k] == shown[k];
      }
    } else if |shown| == HEIGHT {
      assert |Back(Show(shown, c))| == HEIGHT - 1;
    }
  }

  function ShowAll(shown: seq<seq<Byte>>, text: seq<Byte>): (r: seq<seq<Byte>>)
    requires shown != []
    ensures r != []
  {
    if text == [] then shown else Show(ShowAll(shown, text[..|text| - 1]), text[|text| - 1])
  }

  lemma WindowStep(rows: seq<seq<Byte>>, c: Byte)
    requires rows != []
    ensures Window(Type(rows, c)) == Show(Window(rows), c)
  {
    if |rows| > HEIGHT {
      var above, shown := rows[..|rows| - HEIGHT], Window(rows);
      assert rows == above + shown;
      TypeBehind(above, shown, c);
      WindowBehind(above, Type(shown, c));
    }
  }

  lemma TypeBehind(above: seq<seq<Byte>>, shown: seq<seq<Byte>>, c: Byte)
    requires shown != []
    ensures Type(above + shown, c) == above + Type(shown, c)
  {
    var rows, k, n := above + shown, |above| + |shown| - 1, |shown| - 1;
    assert rows[k] == shown[n] && rows[..k] == above + shown[..n];
  }

  lemma WindowBehind(above: seq<seq<Byte>>, rows: seq<seq<Byte>>)
    requires |rows| >= HEIGHT
    ensures Window(above + rows) == Window(rows)
  {
    assert (above + rows)[|above| + |rows| - HEIGHT..] == rows[|rows| - HEIGHT..];
    assert |above| == 0 ==> above + rows == rows;
  }

  /** The screen after any text is the last 25 rows of the text's layout. */
  lemma {:induction false} ScreenIsWindow(text: seq<Byte>)
    ensures ShowAll([[]], text) == Window(Layout(text))
    ensures var rows := Layout(text); ShowAll([[]], text) == if |rows| > 25 then rows[|rows| - 25..] else rows
  {
    if text != [] {
      var front := text[..|text| - 1];
      ScreenIsWindow(front);
      WindowStep(Layout(front), text[|text| - 1]);
    }
  }

  lemma {:induction false} ShowConcat(shown: seq<seq<Byte>>, a: seq<Byte>, b: seq<Byte>)
    requires shown != []
    ensures ShowAll(shown, a + b) == ShowAll(ShowAll(shown, a), b)
    decreases |b|
  {
    if b == [] {
      assert a + b == a;
    } else {
      var n := |b| - 1;
      ShowConcat(shown, a, b[..n]);
      assert (a + b)[..|a + b| - 1] == a + b[..n] && (a + b)[|a + b| - 1] == b[n];
    }
  }

  /** Nothing of the text is lost in the layout: the rows read one after the other are the text
      without its line breaks. */
  function Join(rows: seq<seq<Byte>>): seq<Byte> {
    if rows == [] then [] else Join(rows[..|rows| - 1]) + rows[|rows| - 1]
  }

  function Printed(text: seq<Byte>): seq<Byte> {
    if text == [] then []
    else
      var k := |text| - 1;
      Printed(text[..k]) + if Breaks(text[k]) then [] else [text[k]]
  }

  lemma JoinEnd(rows: seq<seq<Byte>>, row: seq<Byte>)
    ensures Join(rows + [row]) == Join(rows) + row
  {
    assert (rows + [row])[..|rows|] == rows;
  }

  lemma {:induction false} LayoutKeepsText(text: seq<Byte>)
    ensures Join(Layout(text)) == Printed(text)
    ensures RowsFit(Layout(text))
  {
    if text != [] {
      var k := |text| - 1;
      LayoutKeepsText(text[..k]);
      TypeJoins(Layout(text[..k]), text[k]);
      TypeFits(Layout(text[..k]), text[k]);
    }
  }

  /** No row is longer than 80 characters, and there is room on the last. */
  predicate RowsFit(rows: seq<seq<Byte>>)
    requires rows != []
  {
    |rows[|rows| - 1]| < 80 && forall i :: 0 <= i < |rows| ==> |rows[i]| <= 80
  }

  lemma TypeFits(rows: seq<seq<Byte>>, c: Byte)
    requires rows != [] && RowsFit(rows)
    ensures RowsFit(Type(rows, c))
  {
  }

  lemma TypeJoins(rows: seq<seq<Byte>>, c: Byte)
    requires rows != []
    ensures Join(Type(rows, c)) == Join(rows) + if Breaks(c) then [] else [c]
  {
    var n := |rows| - 1;
    var line := rows[n] + [c];
    assert rows == rows[..n] + [rows[n]];
    JoinEnd(rows[..n], rows[n]);
    JoinEnd(rows[..n], line);
    JoinEnd(rows, []);
    JoinEnd(rows[..n] + [line], []);
    assert rows[..n] + [line] + [[]] == rows[..n] + [line, []];
  }

  /** What one more character does to the layout: newline and carriage return, and no others, start
      a row and leave no trace. */
  lemma OneMore(text: seq<Byte>, c: Byte)
    ensures var rows, more := Layout(text), Layout(text + [c]);
      if c == 10 || c == 13 then more == rows + [[]] else Join(more) == Join(rows) + [c]
  {
    assert (text + [c])[..|text|] == text;
    TypeJoins(Layout(text), c);
  }

  /** `rows` are `q` pieces of 80 characters of the text and a shorter rest. */
  predicate Pieces(rows: seq<seq<Byte>>, text: seq<Byte>, q: nat) {
    && 80 * q <= |text| < 80 * q + 80 && |rows| == q + 1
    && (forall i :: 0 <= i < q ==> rows[i] == text[80 * i..80 * i + 80])
    && rows[q] == text[80 * q..]
  }

  lemma PiecesNext(rows: seq<seq<Byte>>, text: seq<Byte>, q: nat, c: Byte) returns (p: nat)
    requires Pieces(rows, text, q) && !Breaks(c)
    ensures Pieces(Type(rows, c), text + [c], p)
  {
    var more := text + [c];
    assert rows[q] + [c] == more[80 * q..];
    forall i | 0 <= i < q ensures more[80 * i..80 * i + 80] == text[80 * i..80 * i + 80] {
    }
    p := if |text| + 1 == 80 * q + 80 then q + 1 else q;
    if p == q + 1 {
      assert rows[q] + [c] == more[80 * q..80 * q + 80] && more[80 * p..] == [];
    }
  }

  lemma {:induction false} InPieces(text: seq<Byte>) returns (q: nat)
    requires forall i :: 0 <= i < |text| ==> text[i] != 10 && text[i] != 13
    ensures Pieces(Layout(text), text, q)
  {
    if text == [] {
      q := 0;
    } else {
      var k := |text| - 1;
      q := InPieces(text[..k]);
      assert text == text[..k] + [text[k]];
      q := PiecesNext(Layout(text[..k]), text[..k], q, text[k]);
    }
  }

  /** Text without line breaks is cut into rows of 80. */
  lemma LongLine(text: seq<Byte>)
    requires forall i :: 0 <= i < |text| ==> text[i] != 10 && text[i] != 13
    ensures Pieces(Layout(text), text, |text| / 80)
  {
    var q := InPieces(text);
    assert q == |text| / 80;
  }

  // ----- the screen buffer

  /** The light grey on black of the terminal; nothing changes it. */
  const COLOR: nat := 7

  /** vga_entry: the colour above the character. */
  function Entry(c: Byte): nat { c + 256 * COLOR }

  lemma EntryReads(c: Byte)
    ensures Entry(c) % 256 == c && Entry(c) / 256 == 7
  {
  }

  const BLANK: nat := 32 + 256 * COLOR

  /** The cell at row `y` and column `x` when these rows are shown. */
  function Cell(rows: seq<seq<Byte>>, y: nat, x: nat): nat {
    if y < |rows| && x < |rows[y]| then Entry(rows[y][x]) else BLANK
  }
}
