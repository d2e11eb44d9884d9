/** What each control byte and escape sequence does to the grid, byte for byte, whatever the
    grid holds. */
module EscapeSequences {
  import opened Bytes
  import opened Screen

  /** Outside any escape sequence. */
  ghost predicate Idle(g: Grid) { g.Valid() && g.escape == NoEscape }

  /** h has the cells of g where p says so, and blanks elsewhere. */
  ghost predicate Blanked(g: Grid, h: Grid, p: (nat, nat) -> bool) {
    && g.Valid() && Idle(h) && h.width == g.width && h.height == g.height
    && forall r, c :: 0 <= r < g.height && 0 <= c < g.width ==> h.cells[r][c] == if p(r, c) then 32 else g.cells[r][c]
  }

  /** ESC [ A to D move the cursor up, down, right or left, not past the edge. */
  lemma CursorMoves(g: Grid)
    requires Idle(g)
    ensures g.Run([27, '[' as byte, 'A' as byte]) == g.(row := if g.row == 0 then 0 else g.row - 1)
    ensures g.Run([27, '[' as byte, 'B' as byte]) == g.(row := Min(g.row + 1, g.height - 1))
    ensures g.Run([27, '[' as byte, 'C' as byte]) == g.(col := Min(g.col + 1, g.width - 1))
    ensures g.Run([27, '[' as byte, 'D' as byte]) == g.(col := if g.col == 0 then 0 else g.col - 1)
  {
    RunThree(g, 27, '[' as byte, 'A' as byte);
    RunThree(g, 27, '[' as byte, 'B' as byte);
    RunThree(g, 27, '[' as byte, 'C' as byte);
    RunThree(g, 27, '[' as byte, 'D' as byte);
  }

  /** ESC [ H moves the cursor to the first cell and does nothing else. */
  lemma CursorHome(g: Grid)
    requires Idle(g)
    ensures g.Run([27, '[' as byte, 'H' as byte]) == g.(row := 0, col := 0)
  {
    RunThree(g, 27, '[' as byte, 'H' as byte);
  }

  /** ESC [ K blanks the cursor's row from the cursor on. */
  lemma EraseLine(g: Grid)
    requires Idle(g)
    ensures var h := g.Run([27, '[' as byte, 'K' as byte]);
            h.row == g.row && h.col == g.col && Blanked(g, h, (r, c) => r == g.row && c >= g.col)
  {
    RunThree(g, 27, '[' as byte, 'K' as byte);
  }

  /** ESC [ J blanks everything from the cursor on in reading order. */
  lemma EraseDown(g: Grid)
    requires Idle(g)
    ensures var h := g.Run([27, '[' as byte, 'J' as byte]);
            h.row == g.row && h.col == g.col
            && Blanked(g, h, (r, c) => r > g.row || (r == g.row && c >= g.col))
  {
    RunThree(g, 27, '[' as byte, 'J' as byte);
  }

  /** Any other final byte, and any byte but the bracket after ESC, does nothing. */
  lemma OtherSequences(g: Grid, b: byte)
    requires Idle(g)
    ensures b !in [65, 66, 67, 68, 72, 74, 75] ==> g.Run([27, '[' as byte, b]) == g
    ensures b != '[' as byte ==> g.Run([27, b]) == g
  {
    RunThree(g, 27, '[' as byte, b);
    RunTwo(g, 27, b);
  }

  /** Carriage return and backspace move the cursor in its row only. */
  lemma RowControls(g: Grid)
    requires Idle(g)
    ensures g.Run([13]) == g.(col := 0)
    ensures g.Run([8]) == g.(col := if g.col == 0 then 0 else g.col - 1)
  {
    RunOne(g, 13);
    RunOne(g, 8);
  }

  /** The next row, its first cell; behind the last row everything moves up by one. */
  ghost predicate OnNextRow(g: Grid, h: Grid) {
    && g.Valid() && Idle(h) && h.width == g.width && h.height == g.height && h.col == 0
    && h.row == Min(g.row + 1, g.height - 1)
    && forall r, c :: 0 <= r < g.height && 0 <= c < g.width ==>
         h.cells[r][c] == if g.row + 1 < g.height then g.cells[r][c]
                          else if r + 1 < g.height then g.cells[r + 1][c] else 32
  }

  /** A newline starts the next row. */
  lemma NewLineByte(g: Grid)
    requires Idle(g)
    ensures OnNextRow(g, g.Run([10]))
  {
    RunOne(g, 10);
  }

  /** Any other byte is put into the cursor's cell, and the cursor moves on, at the end of the
      row to the next one. */
  lemma PrintedByte(g: Grid, b: byte)
    requires Idle(g) && b !in [27, 10, 13, 8]
    ensures var h := g.(cells := g.cells[g.row := g.cells[g.row][g.col := b]]);
            if g.col + 1 < g.width then g.Run([b]) == h.(col := g.col + 1) else OnNextRow(h, g.Run([b]))
  {
    RunOne(g, b);
  }

  /** The output of the clear program empties the screen. */
  lemma ClearScreen(g: Grid)
    requires Idle(g)
    ensures var h := g.Run([27, '[' as byte, 'H' as byte, 27, '[' as byte, 'J' as byte]);
            h.row == 0 && h.col == 0 && Blanked(g, h, (r, c) => true)
  {
    var home: seq<byte>, down: seq<byte> := [27, '[' as byte, 'H' as byte], [27, '[' as byte, 'J' as byte];
    CursorHome(g);
    EraseDown(g.Run(home));
    RunSplit(g, home, down);
    assert home + down == [27, '[' as byte, 'H' as byte, 27, '[' as byte, 'J' as byte];
  }
}
