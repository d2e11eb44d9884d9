/** Virtual terminals sharing a framebuffer: the character buffer, the repaint flags and
    the pixels, kept in step with the grid of Screen. */
module Terminal {
  import opened Bytes
  import opened Screen

  const MAX_WIDTH: nat := 240
  const MAX_HEIGHT: nat := 135

  /** The pixels of one character cell: a function of the glyph, of whether the cursor is
      there, of the device's background and of the cell's own position. */
  datatype Pixels = Desktop | Drawn(glyph: nat, cursor: bool, device: nat)

  function Render(g: Grid, device: nat, r: nat, c: nat): Pixels
    requires r < |g.cells| && c < |g.cells[r]|
  {
    Drawn(GlyphOf(g.cells[r][c]), r == g.row && c == g.col, device)
  }

  /** Two grids of one size that look the same show the same glyphs, the cursor in the same
      place, and belong to the same terminal. */
  lemma RenderTells(g: Grid, h: Grid, d: nat, e: nat)
    requires g.Valid() && h.Valid() && g.width == h.width && g.height == h.height
    requires forall r, c :: 0 <= r < g.height && 0 <= c < g.width ==> Render(g, d, r, c) == Render(h, e, r, c)
    ensures d == e && g.row == h.row && g.col == h.col
    ensures forall r, c :: 0 <= r < g.height && 0 <= c < g.width ==> GlyphOf(g.cells[r][c]) == GlyphOf(h.cells[r][c])
  {
    assert Render(g, d, g.row, g.col) == Render(h, e, g.row, g.col);
    forall r, c | 0 <= r < g.height && 0 <= c < g.width
      ensures GlyphOf(g.cells[r][c]) == GlyphOf(h.cells[r][c])
    {
      assert Render(g, d, r, c) == Render(h, e, r, c);
    }
  }

  /** struct vt_device */
  class Vt {
    const width: nat
    const height: nat
    const device: nat
    const buffer: array2<byte>
    const flags: array2<bool>
    var row: nat
    var col: nat
    var escape: Escape
    ghost var grid: Grid  // what the fields represent

    ghost predicate Valid()
      reads this, buffer
    {
      && 0 < width <= MAX_WIDTH && 0 < height <= MAX_HEIGHT
      && buffer.Length0 == MAX_HEIGHT && buffer.Length1 == MAX_WIDTH
      && flags.Length0 == MAX_HEIGHT && flags.Length1 == MAX_WIDTH
      && grid.Valid() && grid.width == width && grid.height == height
      && grid.row == row && grid.col == col && grid.escape == escape
      && forall r, c :: 0 <= r < height && 0 <= c < width ==> buffer[r, c] == grid.cells[r][c]
    }

    constructor (framebufferWidth: nat, framebufferHeight: nat, device: nat)
      requires framebufferWidth > 0 && framebufferHeight > 0
      ensures Valid() && fresh(buffer) && fresh(flags) && this.device == device
      ensures width == Min(framebufferWidth, 240) && height == Min(framebufferHeight, 135)
      ensures grid == Fresh(width, height)
      ensures forall i, j :: 0 <= i < MAX_HEIGHT && 0 <= j < MAX_WIDTH ==> flags[i, j]
    {
      width := if framebufferWidth <= MAX_WIDTH then framebufferWidth else MAX_WIDTH;
      height := if framebufferHeight <= MAX_HEIGHT then framebufferHeight else MAX_HEIGHT;
      this.device := device;
      buffer := new byte[MAX_HEIGHT, MAX_WIDTH]((i, j) => 0);
      flags := new bool[MAX_HEIGHT, MAX_WIDTH]((i, j) => true);
      row, col, escape := 0, 0, NoEscape;
      new;
      grid := Fresh(width, height);
    }

    /** Every cell whose flag is unset has the pixels it should have. */
    ghost predicate Faithful(fb: array2<Pixels>)
      requires Valid()
      reads this, buffer, flags, fb
    {
      && fb.Length0 >= height && fb.Length1 >= width
      && forall r, c :: 0 <= r < height && 0 <= c < width && !flags[r, c] ==> fb[r, c] == Render(grid, device, r, c)
    }

    /** A cell whose flag is unset now looks as it did then, when it was unset too. */
    twostate predicate Flagged()
      requires old(Valid()) && Valid()
      reads this, buffer, flags
    {
      forall r, c :: 0 <= r < height && 0 <= c < width && !flags[r, c] ==>
        !old(flags[r, c]) && Render(grid, device, r, c) == old(Render(grid, device, r, c))
    }

    /** vt_set_char */
    method SetChar(ch: byte, r: nat, c: nat)
      requires Valid() && r < height && c < width
      modifies this`grid, buffer, flags
      ensures Valid() && grid == old(grid).SetChar(ch, r, c) && Flagged()
      ensures forall i, j :: 0 <= i < height && 0 <= j < width ==> flags[i, j] == (old(flags[i, j]) || (i == r && j == c))
    {
      buffer[r, c] := ch;
      flags[r, c] := true;
      grid := grid.SetChar(ch, r, c);
    }

    /** vt_set_cursor */
    method SetCursor(r: nat, c: nat)
      requires Valid() && r < height && c < width
      modifies this`grid, this`row, this`col, flags
      ensures Valid() && grid == old(grid).SetCursor(r, c) && Flagged()
      ensures forall i, j :: 0 <= i < height && 0 <= j < width ==>
        flags[i, j] == (old(flags[i, j]) || (i == old(row) && j == old(col)) || (i == r && j == c))
    {
      var oldRow, oldCol := row, col;
      row, col := r, c;
      flags[oldRow, oldCol] := true;
      flags[r, c] := true;
      grid := grid.SetCursor(r, c);
    }

    /** The grid g0 with the cells accepted by p replaced by those of g, the flags f0 set there. */
    ghost predicate Replaced(g0: Grid, g: Grid, p: (nat, nat) -> bool)
      reads this
    {
      && grid.width == g0.width == g.width && grid.height == g0.height == g.height
      && grid.row == g0.row && grid.col == g0.col && grid.escape == g0.escape
      && g0.Valid() && g.Valid() && grid.Valid()
      && forall i, j :: 0 <= i < grid.height && 0 <= j < grid.width ==>
           grid.cells[i][j] == if p(i, j) then g.cells[i][j] else g0.cells[i][j]
    }

    /** vt_shift_rows */
    method ShiftRows()
      requires Valid()
      modifies this`grid, buffer, flags
      ensures Valid() && grid == old(grid).ShiftRows() && Flagged()
    {
      ghost var g0 := grid;
      ghost var g1 := grid.ShiftRows();
      for y := 0 to height - 1
        invariant Valid() && Flagged() && Replaced(g0, g1, (i, j) => i < y)
      {
        for x := 0 to width
          invariant Valid() && Flagged() && Replaced(g0, g1, (i, j) => i < y || (i == y && j < x))
        {
          SetChar(buffer[y + 1, x], y, x);
        }
      }
      for x := 0 to width
        invariant Valid() && Flagged() && Replaced(g0, g1, (i, j) => i < height - 1 || j < x)
      {
        SetChar(SPACE, height - 1, x);
      }
      SameGrid(grid, g1);
    }

    /** ESC [ K */
    method ClearLine()
      requires Valid()
      modifies this`grid, buffer, flags
      ensures Valid() && grid == old(grid).ClearLine() && Flagged()
    {
      ghost var g0 := grid;
      ghost var g1 := grid.ClearLine();
      for c := col to width
        invariant Valid() && Flagged() && Replaced(g0, g1, (i, j) => i == g0.row && g0.col <= j < c)
      {
        SetChar(SPACE, row, c);
      }
      SameGrid(grid, g1);
    }

    /** ESC [ J */
    method ClearDown()
      requires Valid()
      modifies this`grid, buffer, flags
      ensures Valid() && grid == old(grid).ClearDown() && Flagged()
    {
      ghost var g0 := grid;
      ghost var g1 := grid.ClearDown();
      var r: nat, c: nat := row, col;
      while true
        invariant g0.row <= r < height && c < width && (r == g0.row ==> g0.col <= c)
        invariant Valid() && Flagged() && Replaced(g0, g1, (i, j) => Before(i, j, r, c))
        decreases height - r, width - c
      {
        SetChar(SPACE, r, c);
        c := c + 1;
        if c == width {
          r := r + 1;
          c := 0;
        }
        if r == height { break; }
      }
      SameGrid(grid, g1);
    }

    method NewLine()
      requires Valid()
      modifies this`grid, this`row, this`col, buffer, flags
      ensures Valid() && grid == old(grid).NewLine() && Flagged()
    {
      if row == height - 1 {
        SetCursor(row, 0);
        ShiftRows();
      } else {
        SetCursor(row + 1, 0);
      }
    }

    /** The final byte of an escape sequence. */
    method Command(b: byte)
      requires Valid()
      modifies this`grid, this`row, this`col, buffer, flags
      ensures Valid() && grid == old(grid).Command(b) && Flagged()
    {
      if b == 'A' as byte {
        if row != 0 { SetCursor(row - 1, col); }
      } else if b == 'B' as byte {
        if row != height - 1 { SetCursor(row + 1, col); }
      } else if b == 'C' as byte {
        if col != width - 1 { SetCursor(row, col + 1); }
      } else if b == 'D' as byte {
        if col != 0 { SetCursor(row, col - 1); }
      } else if b == 'K' as byte {
        ClearLine();
      } else if b == 'H' as byte {
        SetCursor(0, 0);
      } else if b == 'J' as byte {
        ClearDown();
      }
    }

    /** A byte outside any escape sequence, other than ESC. */
    method Print(b: byte)
      requires Valid() && b != ESC
      modifies this`grid, this`row, this`col, buffer, flags
      ensures Valid() && grid == old(grid).Plain(b) && Flagged()
    {
      if b == NL {
        NewLine();
      } else if b == CR {
        SetCursor(row, 0);
      } else if b == BS {
        if col > 0 { SetCursor(row, col - 1); }
      } else {
        SetChar(b, row, col);
        if col == width - 1 { NewLine(); } else { SetCursor(row, col + 1); }
      }
    }

    /** One turn of vt_write's loop. */
    method WriteByte(b: byte)
      requires Valid()
      modifies this, buffer, flags
      ensures Valid() && grid == old(grid).Put(b) && Flagged()
    {
      if escape == AfterBracket {
        Command(b);
        escape := NoEscape;
        grid := grid.(escape := NoEscape);
      } else if escape == AfterEsc {
        escape := if b == '[' as byte then AfterBracket else NoEscape;
        grid := grid.(escape := escape);
      } else if b == ESC {
        escape := AfterEsc;
        grid := grid.(escape := AfterEsc);
      } else {
        Print(b);
      }
    }

    /** vt_write, up to the repaint. */
    method WriteBytes(bytes: seq<byte>)
      requires Valid()
      modifies this, buffer, flags
      ensures Valid() && grid == old(grid).Run(bytes) && Flagged()
    {
      for i := 0 to |bytes|
        invariant Valid() && grid == old(grid).Run(bytes[..i]) && Flagged()
      {
        WriteByte(bytes[i]);
        assert bytes[..i + 1][..i] == bytes[..i];
      }
      assert bytes[..|bytes|] == bytes;
    }

    /** vt_repaint_terminal: draws the flagged cells and clears their flags, after which
        every cell is as a full repaint would leave it. */
    method Repaint(fb: array2<Pixels>)
      requires Valid() && Faithful(fb)
      modifies flags, fb
      ensures Valid() && Faithful(fb)
      ensures forall r, c :: 0 <= r < height && 0 <= c < width ==>
        !flags[r, c] && fb[r, c] == Render(grid, device, r, c)
      ensures forall r, c :: 0 <= r < fb.Length0 && 0 <= c < fb.Length1 && (r >= height || c >= width) ==>
        fb[r, c] == old(fb[r, c])
    {
      for i := 0 to height
        invariant Faithful(fb)
        invariant forall r, c :: 0 <= r < i && 0 <= c < width ==> !flags[r, c]
        invariant forall r, c :: 0 <= r < fb.Length0 && 0 <= c < fb.Length1 && (r >= height || c >= width) ==>
          fb[r, c] == old(fb[r, c])
      {
        for j := 0 to width
          invariant Faithful(fb)
          invariant forall r, c :: 0 <= r < height && 0 <= c < width && Before(r, c, i, j) ==> !flags[r, c]
          invariant forall r, c :: 0 <= r < fb.Length0 && 0 <= c < fb.Length1 && (r >= height || c >= width) ==>
            fb[r, c] == old(fb[r, c])
        {
          if flags[i, j] {
            fb[i, j] := Drawn(GlyphOf(buffer[i, j]), i == row && j == col, device);
            flags[i, j] := false;
          }
        }
      }
    }
  }

  method NewTerminals(width: nat, height: nat) returns (tty: seq<Vt>)
    requires width > 0 && height > 0
    ensures |tty| == 3
    ensures forall k :: 0 <= k < 3 ==>
      && fresh(tty[k]) && fresh(tty[k].buffer) && fresh(tty[k].flags) && tty[k].Valid() && tty[k].device == k + 1
      && tty[k].grid == Fresh(Min(width, MAX_WIDTH), Min(height, MAX_HEIGHT))
    ensures forall k, l :: 0 <= k < l < 3 ==>
      tty[k] != tty[l] && tty[k].buffer != tty[l].buffer && tty[k].flags != tty[l].flags
  {
    var v1 := new Vt(width, height, 1);
    var v2 := new Vt(width, height, 2);
    var v3 := new Vt(width, height, 3);
    tty := [v1, v2, v3];
  }

  /** The three terminals and the framebuffer, whose size in cells they were made for. */
  class Console {
    const tty: seq<Vt>
    const fb: array2<Pixels>
    var active: nat

    /** terminal_init_1 */
    constructor (fb: array2<Pixels>)
      requires fb.Length0 > 0 && fb.Length1 > 0
      modifies fb
      ensures Valid() && active == 0 && this.fb == fb
      ensures forall k :: 0 <= k < 3 ==>
        fresh(tty[k]) && fresh(tty[k].buffer) && fresh(tty[k].flags) &&
        tty[k].grid == Fresh(Min(fb.Length1, MAX_WIDTH), Min(fb.Length0, MAX_HEIGHT))
    {
      var terminals := NewTerminals(fb.Length1, fb.Length0);
      tty := terminals;
      this.fb := fb;
      active := 0;
      new;
      assert Terminals();
      SetActive(0);
    }

    ghost predicate Terminals()
      reads this, tty, set v | v in tty :: v.buffer
    {
      && |tty| == 3 && active < 3 && fb.Length0 > 0 && fb.Length1 > 0
      && (forall k :: 0 <= k < 3 ==>
            && tty[k].Valid() && tty[k].device == k + 1
            && tty[k].width == Min(fb.Length1, MAX_WIDTH) && tty[k].height == Min(fb.Length0, MAX_HEIGHT))
      && (forall k, l :: 0 <= k < l < 3 ==>
            tty[k] != tty[l] && tty[k].buffer != tty[l].buffer && tty[k].flags != tty[l].flags)
    }

    /** The frame is a full render of the active terminal over the desktop. */
    ghost predicate Valid()
      reads this, fb, tty, set v | v in tty :: v.buffer
    {
      && Terminals()
      && forall r, c :: 0 <= r < fb.Length0 && 0 <= c < fb.Length1 ==> fb[r, c] == FullRender(r, c)
    }

    ghost function FullRender(r: nat, c: nat): Pixels
      requires |tty| == 3 && active < 3 && tty[active].Valid()
      reads this, tty, set v | v in tty :: v.buffer
    {
      var v := tty[active];
      if r < v.height && c < v.width then Render(v.grid, v.device, r, c) else Desktop
    }

    /** What the frame looks like: the active terminal's glyphs and cursor on as many cells as
        it has, the desktop around them. */
    lemma FrameShows(r: nat, c: nat)
      requires Valid() && r < fb.Length0 && c < fb.Length1
      ensures r < 135 && c < 240 ==>
        && r < |tty[active].grid.cells| && c < |tty[active].grid.cells[r]|
        && fb[r, c] == Drawn(GlyphOf(tty[active].grid.cells[r][c]),
                             r == tty[active].grid.row && c == tty[active].grid.col, active + 1)
      ensures r >= 135 || c >= 240 ==> fb[r, c] == Desktop
    {
      assert fb[r, c] == FullRender(r, c) && tty[active].Valid();
    }

    /** vt_write: the terminal written to runs the bytes, the others are untouched, and the
        frame is again a full render, although only flagged cells were drawn. */
    method Write(k: nat, bytes: seq<byte>)
      requires Valid() && k < 3
      modifies tty[k], tty[k].buffer, tty[k].flags, fb
      ensures Valid()
      ensures tty[k].grid == old(tty[k].grid).Run(bytes)
      ensures forall l :: 0 <= l < 3 && l != k ==> tty[l].grid == old(tty[l].grid)
    {
      var v := tty[k];
      v.WriteBytes(bytes);
      assert Terminals();
      if k == active {
        assert v.Faithful(fb);
        v.Repaint(fb);
      }
    }

    /** set_active_vt: every flag set, the desktop painted, the terminal repainted over it. */
    method SetActive(k: nat)
      requires Terminals() && k < 3
      modifies this`active, tty[k].flags, fb
      ensures Valid() && active == k
      ensures forall l :: 0 <= l < 3 ==> tty[l].grid == old(tty[l].grid)
    {
      active := k;
      var v := tty[k];
      forall i, j | 0 <= i < MAX_HEIGHT && 0 <= j < MAX_WIDTH {
        v.flags[i, j] := true;
      }
      RepaintDesktop(fb);
      v.Repaint(fb);
    }
  }

  method RepaintDesktop(fb: array2<Pixels>)
    modifies fb
    ensures forall r, c :: 0 <= r < fb.Length0 && 0 <= c < fb.Length1 ==> fb[r, c] == Desktop
  {
    for y := 0 to fb.Length0
      invariant forall r, c :: 0 <= r < y && 0 <= c < fb.Length1 ==> fb[r, c] == Desktop
    {
      for x := 0 to fb.Length1
        invariant forall r, c :: 0 <= r < y && 0 <= c < fb.Length1 ==> fb[r, c] == Desktop
        invariant forall c :: 0 <= c < x ==> fb[y, c] == Desktop
      {
        fb[y, x] := Desktop;
      }
    }
  }

  /** Reading order. */
  predicate Before(i: int, j: int, r: int, c: int) { i < r || (i == r && j < c) }

  lemma SameGrid(a: Grid, b: Grid)
    requires a.Valid() && b.Valid() && a.width == b.width && a.height == b.height
    requires a.row == b.row && a.col == b.col && a.escape == b.escape
    requires forall i, j :: 0 <= i < a.height && 0 <= j < a.width ==> a.cells[i][j] == b.cells[i][j]
    ensures a == b
  {
    forall i | 0 <= i < a.height
      ensures a.cells[i] == b.cells[i]
    {
      assert forall j :: 0 <= j < a.width ==> a.cells[i][j] == b.cells[i][j];
    }
    assert a.cells == b.cells;
  }
}
