/** What a byte means to the terminal: an escape-sequence state machine over a grid of
    characters (cursor and erase functions as in section 8.3 of ECMA-48). */
module Screen {
  import opened Bytes

  const ESC: byte := 0x1B
  const NL: byte := 10
  const CR: byte := 13
  const BS: byte := 8
  const SPACE: byte := 32

  datatype Escape = NoEscape | AfterEsc | AfterBracket

  /** A grid of height rows and width columns, the cursor and the escape state. */
  datatype Grid = Grid(width: nat, height: nat, cells: seq<seq<byte>>, row: nat, col: nat, escape: Escape)
  {
    ghost predicate Valid() {
      && width > 0 && height > 0 && |cells| == height && row < height && col < width
      && forall r :: 0 <= r < height ==> |cells[r]| == width
    }

    /** vt_set_char */
    function SetChar(c: byte, r: nat, k: nat): (g: Grid)
      requires Valid() && r < height && k < width
      ensures g.Valid()
    {
      this.(cells := cells[r := cells[r][k := c]])
    }

    /** vt_set_cursor */
    function SetCursor(r: nat, k: nat): (g: Grid)
      requires Valid() && r < height && k < width
      ensures g.Valid()
    {
      this.(row := r, col := k)
    }

    /** vt_shift_rows */
    function ShiftRows(): (g: Grid)
      requires Valid()
      ensures g.Valid()
    {
      this.(cells := cells[1..] + [Repeat(SPACE, width)])
    }

    function NewLine(): (g: Grid)
      requires Valid()
      ensures g.Valid()
    {
      if row == height - 1 then SetCursor(row, 0).ShiftRows() else SetCursor(row + 1, 0)
    }

    /** ESC [ K */
    function ClearLine(): (g: Grid)
      requires Valid()
      ensures g.Valid()
    {
      this.(cells := cells[row := cells[row][..col] + Repeat(SPACE, width - col)])
    }

    /** ESC [ J */
    function ClearDown(): (g: Grid)
      requires Valid()
      ensures g.Valid()
    {
      ClearLine().(cells := ClearLine().cells[..row + 1] + Repeat(Repeat(SPACE, width), height - row - 1))
    }

    function Command(b: byte): (g: Grid)
      requires Valid()
      ensures g.Valid()
    {
      if b == 'A' as byte then (if row != 0 then SetCursor(row - 1, col) else this)
      else if b == 'B' as byte then (if row != height - 1 then SetCursor(row + 1, col) else this)
      else if b == 'C' as byte then (if col != width - 1 then SetCursor(row, col + 1) else this)
      else if b == 'D' as byte then (if col != 0 then SetCursor(row, col - 1) else this)
      else if b == 'K' as byte then ClearLine()
      else if b == 'H' as byte then SetCursor(0, 0)
      else if b == 'J' as byte then ClearDown()
      else this
    }

    function Plain(b: byte): (g: Grid)
      requires Valid()
      ensures g.Valid()
    {
      if b == ESC then this.(escape := AfterEsc)
      else if b == NL then NewLine()
      else if b == CR then SetCursor(row, 0)
      else if b == BS then (if col > 0 then SetCursor(row, col - 1) else this)
      else if col == width - 1 then SetChar(b, row, col).NewLine()
      else SetChar(b, row, col).SetCursor(row, col + 1)
    }

    /** One byte of vt_write. */
    function Put(b: byte): (g: Grid)
      requires Valid()
      ensures g.Valid() && g.width == width && g.height == height
    {
      match escape
      case AfterBracket => Command(b).(escape := NoEscape)
      case AfterEsc => this.(escape := if b == '[' as byte then AfterBracket else NoEscape)
      case NoEscape => Plain(b)
    }

    /** A whole write; the cursor stays on the grid whatever the bytes. */
    function Run(bytes: seq<byte>): (g: Grid)
      requires Valid()
      ensures g.Valid() && g.width == width && g.height == height
      decreases |bytes|
    {
      if bytes == [] then this else Run(bytes[..|bytes| - 1]).Put(bytes[|bytes| - 1])
    }
  }

  /** Splitting a write changes nothing, even inside an escape sequence. */
  lemma {:induction false} RunSplit(g: Grid, a: seq<byte>, b: seq<byte>)
    requires g.Valid()
    ensures g.Run(a + b) == g.Run(a).Run(b)
    decreases |b|
  {
    if b == [] {
      assert a + b == a;
    } else {
      var n := |b| - 1;
      assert (a + b)[..|a + b| - 1] == a + b[..n];
      RunSplit(g, a, b[..n]);
    }
  }

  lemma RunOne(g: Grid, b: byte)
    requires g.Valid()
    ensures g.Run([b]) == g.Put(b)
  {
    assert [b][..0] == [];
  }

  lemma RunTwo(g: Grid, a: byte, b: byte)
    requires g.Valid()
    ensures g.Run([a, b]) == g.Put(a).Put(b)
  {
    RunSplit(g, [a], [b]);
    RunOne(g, a);
    RunOne(g.Put(a), b);
    assert [a] + [b] == [a, b];
  }

  lemma RunThree(g: Grid, a: byte, b: byte, c: byte)
    requires g.Valid()
    ensures g.Run([a, b, c]) == g.Put(a).Put(b).Put(c)
  {
    RunSplit(g, [a], [b, c]);
    RunSplit(g.Put(a), [b], [c]);
    RunOne(g, a);
    RunOne(g.Put(a), b);
    RunOne(g.Put(a).Put(b), c);
    assert [a] + [b, c] == [a, b, c] && [b] + [c] == [b, c];
  }

  lemma RunFour(g: Grid, a: byte, b: byte, c: byte, d: byte)
    requires g.Valid()
    ensures g.Run([a, b, c, d]) == g.Put(a).Put(b).Put(c).Put(d)
  {
    RunSplit(g, [a], [b, c, d]);
    RunOne(g, a);
    RunThree(g.Put(a), b, c, d);
    assert [a] + [b, c, d] == [a, b, c, d];
  }

  function Fresh(width: nat, height: nat): Grid {
    Grid(width, height, Repeat(Repeat(0, width), height), 0, 0, NoEscape)
  }

  /** Index of the glyph drawn for a character; 0 is the blank. */
  function GlyphOf(c: byte): nat {
    if c < 32 || c > 127 then 0 else (c - 32) as nat
  }

  /** The printable characters have the glyphs in their own order, no two the same, and all
      others that of the space. */
  lemma GlyphsApart(c: byte, d: byte)
    ensures 32 <= c <= 127 && 32 <= d <= 127 ==> GlyphOf(d) - GlyphOf(c) == d as int - c as int
    ensures !(32 <= c <= 127) ==> GlyphOf(c) == GlyphOf(32) == 0
  {}

  /** Bytes that only print or start a new line. */
  predicate IsText(s: seq<byte>) {
    forall i :: 0 <= i < |s| ==> s[i] != ESC && s[i] != CR && s[i] != BS
  }

  /** The lines of a text: what its newlines separate. */
  function Lines(s: seq<byte>): (r: seq<seq<byte>>)
    ensures |r| > 0
  {
    if s == [] then [[]]
    else
      var before, b := Lines(s[..|s| - 1]), s[|s| - 1];
      if b == NL then before + [[]] else before[|before| - 1 := before[|before| - 1] + [b]]
  }

  /** A line cut into rows of the given width; a full row is always followed by another. */
  function Wrap(line: seq<byte>, width: nat): (r: seq<seq<byte>>)
    requires width > 0
    ensures |r| > 0 && |r[|r| - 1]| < width
  {
    if |line| < width then [line] else [line[..width]] + Wrap(line[width..], width)
  }

  function Flatten<T>(parts: seq<seq<T>>): seq<T> {
    if parts == [] then [] else parts[0] + Flatten(parts[1..])
  }

  /** Wrapping loses nothing and fills every row but the last. */
  lemma {:induction false} WrapExact(line: seq<byte>, width: nat)
    requires width > 0
    ensures Flatten(Wrap(line, width)) == line
    ensures forall i :: 0 <= i < |Wrap(line, width)| - 1 ==> |Wrap(line, width)[i]| == width
    decreases |line|
  {
    var r := Wrap(line, width);
    if |line| < width {
      assert r[1..] == [];
    } else {
      WrapExact(line[width..], width);
      assert r[1..] == Wrap(line[width..], width);
      assert line == line[..width] + line[width..];
    }
  }

  /** Lines are what newlines separate: joined by them they are the text again. */
  lemma {:induction false} LinesJoin(s: seq<byte>)
    ensures Join(Lines(s)) == s && forall i :: 0 <= i < |Lines(s)| ==> NL !in Lines(s)[i]
    decreases |s|
  {
    if s != [] {
      var n := |s| - 1;
      LinesJoin(s[..n]);
      var before := Lines(s[..n]);
      assert s == s[..n] + [s[n]];
      if s[n] == NL {
        assert (before + [[]])[..|before|] == before;
      } else {
        assert Lines(s)[..|before| - 1] == before[..|before| - 1];
      }
    }
  }

  function Join(lines: seq<seq<byte>>): seq<byte>
    requires |lines| > 0
  {
    if |lines| == 1 then lines[0] else Join(lines[..|lines| - 1]) + [NL] + lines[|lines| - 1]
  }

  function Layout(lines: seq<seq<byte>>, width: nat): seq<seq<byte>>
    requires width > 0
  {
    if lines == [] then [] else Layout(lines[..|lines| - 1], width) + Wrap(lines[|lines| - 1], width)
  }

  /** The rows with one more character on the last, which a full row does not stay. */
  function Extended(rows: seq<seq<byte>>, b: byte, width: nat): seq<seq<byte>>
    requires |rows| > 0
  {
    var last := rows[|rows| - 1] + [b];
    rows[|rows| - 1 := last] + (if |last| == width then [[]] else [])
  }

  lemma ExtendedRest(first: seq<seq<byte>>, rest: seq<seq<byte>>, b: byte, width: nat)
    requires |rest| > 0
    ensures Extended(first + rest, b, width) == first + Extended(rest, b, width)
  {}

  /** One more character on a line extends its last row, opening another when it is full. */
  lemma {:induction false} WrapSnoc(line: seq<byte>, b: byte, width: nat)
    requires width > 0
    ensures Wrap(line + [b], width) == Extended(Wrap(line, width), b, width)
    decreases |line|
  {
    if |line| + 1 < width {
    } else if |line| + 1 == width {
      assert (line + [b])[..width] == line + [b] && (line + [b])[width..] == [];
    } else {
      var rest := line[width..];
      assert (line + [b])[..width] == line[..width] && (line + [b])[width..] == rest + [b];
      WrapSnoc(rest, b, width);
      assert Wrap(line + [b], width) == [line[..width]] + Wrap(rest + [b], width);
      ExtendedRest([line[..width]], Wrap(rest, width), b, width);
    }
  }

  /** The rows of a text. */
  function Rows(s: seq<byte>, width: nat): seq<seq<byte>>
    requires width > 0
  {
    Layout(Lines(s), width)
  }

  lemma RowsSnoc(s: seq<byte>, b: byte, width: nat)
    requires width > 0
    ensures var r := Rows(s, width);
            && |r| > 0 && |r[|r| - 1]| < width
            && Rows(s + [b], width) == if b == NL then r + [[]] else Extended(r, b, width)
  {
    var lines := Lines(s);
    var n := |lines| - 1;
    assert (s + [b])[..|s|] == s;
    var head, tail := Layout(lines[..n], width), Wrap(lines[n], width);
    assert Rows(s, width) == head + tail;
    if b == NL {
      assert (lines + [[]])[..n + 1] == lines;
    } else {
      WrapSnoc(lines[n], b, width);
      assert lines[n := lines[n] + [b]][..n] == lines[..n];
      ExtendedRest(head, tail, b, width);
    }
  }

  /** Cell (r, c) of the last height rows, blank outside them. */
  function Shown(rows: seq<seq<byte>>, height: nat, r: nat, c: nat): nat {
    var k := if |rows| > height then |rows| - height + r else r;
    if k < |rows| && c < |rows[k]| then GlyphOf(rows[k][c]) else 0
  }

  /** The grid shows the last rows, with the cursor at their end. */
  ghost predicate Displays(g: Grid, rows: seq<seq<byte>>) {
    && g.Valid() && g.escape == NoEscape && |rows| > 0
    && g.row == Min(|rows|, g.height) - 1 && g.col == |rows[|rows| - 1]|
    && forall r, c :: 0 <= r < g.height && 0 <= c < g.width ==> GlyphOf(g.cells[r][c]) == Shown(rows, g.height, r, c)
  }

  lemma DisplayNewLine(g: Grid, rows: seq<seq<byte>>)
    requires Displays(g, rows)
    ensures Displays(g.NewLine(), rows + [[]])
  {}

  lemma DisplayChar(g: Grid, rows: seq<seq<byte>>, b: byte)
    requires Displays(g, rows) && g.col + 1 < g.width
    ensures Displays(g.SetChar(b, g.row, g.col).SetCursor(g.row, g.col + 1), Extended(rows, b, g.width))
  {}

  /** The end of a row: the character, then a new line. */
  lemma DisplayLast(g: Grid, rows: seq<seq<byte>>, b: byte)
    requires Displays(g, rows) && g.col + 1 == g.width
    ensures Displays(g.SetChar(b, g.row, g.col).NewLine(), Extended(rows, b, g.width))
  {}

  /** One byte of text. */
  lemma DisplayPut(g: Grid, rows: seq<seq<byte>>, b: byte)
    requires Displays(g, rows) && IsText([b])
    ensures Displays(g.Put(b), if b == NL then rows + [[]] else Extended(rows, b, g.width))
  {
    assert IsText([b]) ==> [b][0] != ESC && [b][0] != CR && [b][0] != BS;
    if b == NL {
      DisplayNewLine(g, rows);
    } else if g.col + 1 == g.width {
      DisplayLast(g, rows, b);
    } else {
      DisplayChar(g, rows, b);
    }
  }

  /** From a fresh terminal, text appears as its last rows, wrapped, with the cursor at its end. */
  lemma {:induction false} TextDisplayed(s: seq<byte>, width: nat, height: nat)
    requires width > 0 && height > 0 && IsText(s)
    ensures Displays(Fresh(width, height).Run(s), Rows(s, width))
    decreases |s|
  {
    if s == [] {
      var none: seq<seq<byte>> := [[]];
      assert Lines(s) == none && none[..0] == [] && Wrap(none[0], width) == none;
      assert Layout(none, width) == Layout(none[..0], width) + none;
    } else {
      var n := |s| - 1;
      var front, b := s[..n], s[n];
      assert s == front + [b];
      TextDisplayed(front, width, height);
      RowsSnoc(front, b, width);
      DisplayPut(Fresh(width, height).Run(front), Rows(front, width), b);
    }
  }
}
