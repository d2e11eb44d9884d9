/** What the line editor's output looks like once the terminal has interpreted it. */
module EditorDisplay {
  import opened Bytes
  import opened Screen
  import opened Editor

  /** Characters that only print. */
  ghost predicate Printing(s: seq<byte>) {
    forall i :: 0 <= i < |s| ==> s[i] != ESC && s[i] != NL && s[i] != CR && s[i] != BS
  }

  /** Printing on one row: the text lands at the cursor, which ends just behind it. */
  lemma {:induction false} RunPrinting(g: Grid, text: seq<byte>)
    requires g.Valid() && g.escape == NoEscape && Printing(text) && g.col + |text| < g.width
    ensures g.Run(text) == g.(cells := g.cells[g.row := Overlay(g.cells[g.row], g.col, text)], col := g.col + |text|)
    decreases |text|
  {
    if text == [] {
      assert Overlay(g.cells[g.row], g.col, text) == g.cells[g.row];
    } else {
      var n := |text| - 1;
      RunPrinting(g, text[..n]);
      var row := g.cells[g.row];
      assert Overlay(row, g.col, text[..n])[g.col + n := text[n]] == Overlay(row, g.col, text);
      assert g.cells[g.row := Overlay(row, g.col, text[..n])][g.row := Overlay(row, g.col, text)]
          == g.cells[g.row := Overlay(row, g.col, text)];
    }
  }

  /** Carriage return and ESC [ K: an empty row with the cursor at its start. */
  lemma RunClear(g: Grid)
    requires g.Valid() && g.escape == NoEscape
    ensures g.Run(CLEAR) == g.(cells := g.cells[g.row := Repeat(SPACE, g.width)], col := 0)
  {
    RunFour(g, CR, ESC, 91, 75);
    var home := g.SetCursor(g.row, 0);
    assert home.cells[g.row][..0] + Repeat(SPACE, g.width) == Repeat(SPACE, g.width);
  }

  lemma RunStepLeft(g: Grid)
    requires g.Valid() && g.escape == NoEscape && g.col > 0
    ensures g.Run(STEP_LEFT) == g.(col := g.col - 1)
  {
    RunThree(g, ESC, 91, 68);
  }

  lemma StepAfter(g: Grid, steps: seq<byte>, h: Grid)
    requires g.Valid() && g.Run(steps) == h && h.escape == NoEscape && h.col > 0
    ensures g.Run(steps + STEP_LEFT) == h.(col := h.col - 1)
  {
    RunSplit(g, steps, STEP_LEFT);
    RunStepLeft(h);
  }

  lemma {:induction false} RunStepsLeft(g: Grid, n: nat)
    requires g.Valid() && g.escape == NoEscape && n <= g.col
    ensures g.Run(StepsLeft(n)) == g.(col := g.col - n)
  {
    if n > 0 {
      RunStepsLeft(g, n - 1);
      StepAfter(g, StepsLeft(n - 1), g.(col := g.col - (n - 1)));
    }
  }

  /** The cursor's row shows the prompt, the line and blanks, with the cursor between the
      line's two parts. */
  ghost predicate Shows(g: Grid, s: Session) {
    var shown := PROMPT + s.Text();
    && g.Valid() && g.escape == NoEscape && |shown| < g.width
    && g.col == |PROMPT| + |s.left|
    && g.cells[g.row][..|shown|] == shown
    && forall k :: |shown| <= k < g.width ==> GlyphOf(g.cells[g.row][k]) == 0
  }

  /** Whatever the row held, rewriting makes it show the line; other rows stay. */
  lemma RewriteShows(g: Grid, s: Session)
    requires g.Valid() && g.escape == NoEscape && Printing(s.Text()) && |PROMPT| + |s.Text()| < g.width
    ensures var h := g.Run(s.Rewrite());
            && Shows(h, s) && h.row == g.row
            && forall r :: 0 <= r < g.height && r != g.row ==> h.cells[r] == g.cells[r]
  {
    RunRewrite(g, s);
    RowOf(PROMPT + s.Text(), g.width);
  }

  /** The editor's first prompt: a number sign and a space, the cursor behind them. */
  lemma FirstPrompt(g: Grid)
    requires g.Valid() && g.escape == NoEscape && g.width > 2
    ensures var h := g.Run(Session([], [], []).Rewrite());
            && h.col == 2 && h.row == g.row && h.cells[h.row][..2] == ['#' as byte, ' ' as byte]
            && forall k :: 2 <= k < g.width ==> GlyphOf(h.cells[h.row][k]) == 0
  {
    RewriteShows(g, Session([], [], []));
  }

  /** A row that holds a text and blanks. */
  lemma RowOf(text: seq<byte>, width: nat)
    requires |text| < width
    ensures var row := Overlay(Repeat(SPACE, width), 0, text);
            row[..|text|] == text && forall k :: |text| <= k < width ==> GlyphOf(row[k]) == 0
  {}

  /** The grid after a rewrite. */
  lemma RunRewrite(g: Grid, s: Session)
    requires g.Valid() && g.escape == NoEscape && Printing(s.Text()) && |PROMPT| + |s.Text()| < g.width
    ensures g.Run(s.Rewrite()) == g.(cells := g.cells[g.row := Overlay(Repeat(SPACE, g.width), 0, PROMPT + s.Text())],
                                     col := |PROMPT| + |s.left|)
  {
    var shown := PROMPT + s.Text();
    var cleared := g.(cells := g.cells[g.row := Repeat(SPACE, g.width)], col := 0);
    RunClear(g);
    RunPrinting(cleared, shown);
    var printed := cleared.Run(shown);
    RunStepsLeft(printed, |s.right|);
    RunSplit(g, CLEAR, shown);
    RunSplit(g, CLEAR + shown, StepsLeft(|s.right|));
    assert CLEAR + shown == CLEAR + PROMPT + s.Text();
  }

  /** Appending at the end of the line is shown without rewriting it. */
  lemma AppendShows(g: Grid, s: Session, c: byte)
    requires Shows(g, s) && s.right == [] && Printing([c]) && |PROMPT| + |s.Text()| + 1 < g.width
    ensures Shows(g.Run([c]), s.After(Char(c)))
  {
    RunPrinting(g, [c]);
    var row, shown := g.cells[g.row], PROMPT + s.Text();
    assert s.Text() == s.left;
    assert s.After(Char(c)).Text() == s.left + [c];
    assert PROMPT + (s.left + [c]) == shown + [c];
    assert Overlay(row, g.col, [c])[..|shown| + 1] == shown + [c];
  }

  /** The line after a key fits its row and only holds printing characters. */
  ghost predicate Fits(g: Grid, s: Session) {
    Printing(s.Text()) && Printing(s.history) && |PROMPT| + |s.Text()| < g.width
  }

  /** After any key the terminal still shows the line being edited. */
  lemma KeyShows(g: Grid, s: Session, key: Key)
    requires Shows(g, s) && Fits(g, s) && Fits(g, s.After(key))
    ensures Shows(g.Run(s.Output(key)), s.After(key))
  {
    var next := s.After(key);
    if s.Output(key) == next.Rewrite() {
      RewriteShows(g, next);
    } else if key.Char? {
      assert next.Text()[|s.left|] == key.c;
      AppendShows(g, s, key.c);
    }
  }

  /** And so after any run of keys, from any grid that shows the line. */
  lemma {:induction false} RunShows(g: Grid, s: Session, keys: seq<Key>)
    requires Shows(g, s)
    requires forall n :: 0 <= n <= |keys| ==> Fits(g, s.Run(keys[..n]))
    ensures Shows(g.Run(s.RunOutput(keys)), s.Run(keys))
    decreases |keys|
  {
    if keys != [] {
      var n := |keys| - 1;
      var front := keys[..n];
      forall m | 0 <= m <= n
        ensures Fits(g, s.Run(front[..m]))
      {
        assert front[..m] == keys[..m];
      }
      RunShows(g, s, front);
      assert keys[..n + 1] == keys;
      var h := g.Run(s.RunOutput(front));
      assert Fits(h, s.Run(front)) && Fits(h, s.Run(front).After(keys[n]));
      KeyShows(h, s.Run(front), keys[n]);
      RunSplit(g, s.RunOutput(front), s.Run(front).Output(keys[n]));
    }
  }

  /** Moving away and back restores the line and the cursor; so does erasing what was typed. */
  lemma KeysUndo(s: Session, c: byte)
    ensures s.After(Char(c)).After(Erase) == s
    ensures s.left != [] ==> s.After(Left).After(Right) == s
    ensures s.right != [] ==> s.After(Right).After(Left) == s
    ensures s.After(Left).Text() == s.Text() && s.After(Right).Text() == s.Text()
    ensures s.After(Up).After(Up) == Session(s.Text(), [], s.history)
  {
    var n := |s.left|;
    if n > 0 {
      assert s.left[..n - 1] + [s.left[n - 1]] == s.left;
      assert s.left[..n - 1] + ([s.left[n - 1]] + s.right) == s.left + s.right;
      assert ([s.left[n - 1]] + s.right)[1..] == s.right;
    }
    if s.right != [] {
      assert [s.right[0]] + s.right[1..] == s.right;
      assert (s.left + [s.right[0]])[..n] == s.left;
      assert s.left + [s.right[0]] + s.right[1..] == s.left + s.right;
    }
    assert (s.left + [c])[..n] == s.left;
    assert s.history + [] == s.history;
  }
}
