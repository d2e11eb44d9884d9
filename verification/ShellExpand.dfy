/** Word expansion into fixed buffers, and the argument and redirect lists of a line. */
module ShellExpand {
  import opened Bytes
  import CStrings
  import opened Options
  import opened ShellParser
  import opened ShellScanner
  import ShellSyntax

  const LIMIT: nat := 400 // SCRIPT_BUFFER_LENGTH

  /** What the fragments of a word hold. */
  function Parts(line: seq<byte>, fs: seq<Fragment>): (parts: seq<seq<byte>>)
    requires forall i :: 0 <= i < |fs| ==> fs[i].In(line)
    ensures |parts| == |fs| && forall i :: 0 <= i < |fs| ==> parts[i] == fs[i].Content(line)
  {
    seq(|fs|, i requires 0 <= i < |fs| && fs[i].In(line) => fs[i].Content(line))
  }

  /** The first n parts, joined. */
  function Joined(parts: seq<seq<byte>>, n: nat): seq<byte>
    requires n <= |parts|
  {
    if n == 0 then [] else Joined(parts, n - 1) + parts[n - 1]
  }

  lemma {:induction false} JoinedRest(parts: seq<seq<byte>>, n: nat)
    requires 0 < n <= |parts|
    ensures Joined(parts, n) == parts[0] + Joined(parts[1..], n - 1)
  {
    if n > 1 { JoinedRest(parts, n - 1); }
  }

  /** The parts joined are the word's text. */
  lemma {:induction false} JoinedIsText(line: seq<byte>, fs: seq<Fragment>)
    requires forall i :: 0 <= i < |fs| ==> fs[i].In(line)
    ensures Joined(Parts(line, fs), |fs|) == Text(line, fs)
    decreases |fs|
  {
    if fs != [] {
      JoinedIsText(line, fs[1..]);
      JoinedRest(Parts(line, fs), |fs|);
      assert Parts(line, fs)[1..] == Parts(line, fs[1..]);
    }
  }

  lemma {:induction false} JoinedGrows(parts: seq<seq<byte>>, k: nat, n: nat)
    requires k <= n <= |parts|
    ensures |Joined(parts, k)| <= |Joined(parts, n)|
    decreases n - k
  {
    if k < n { JoinedGrows(parts, k, n - 1); }
  }

  /** After each fragment a NUL goes one past the byte that follows the text so far. */
  ghost predicate NulAt(parts: seq<seq<byte>>, n: nat, at: nat, p: nat)
    requires n <= |parts|
  {
    exists k :: 0 < k <= n && at + |Joined(parts, k)| + 1 == p
  }

  /** Those positions as a set. */
  ghost function Nuls(parts: seq<seq<byte>>, n: nat, at: nat): set<int>
    requires n <= |parts|
  {
    if n == 0 then {} else Nuls(parts, n - 1, at) + {at + |Joined(parts, n)| + 1}
  }

  lemma {:induction false} NulsAre(parts: seq<seq<byte>>, n: nat, at: nat, p: nat)
    requires n <= |parts|
    ensures p in Nuls(parts, n, at) <==> NulAt(parts, n, at, p)
  {
    if n > 0 {
      NulsAre(parts, n - 1, at, p);
      if NulAt(parts, n - 1, at, p) {
        var k :| 0 < k <= n - 1 && at + |Joined(parts, k)| + 1 == p;
        assert 0 < k <= n;
      }
    }
  }

  /** m with a text at position at and NULs elsewhere. */
  ghost predicate Laid(m: seq<byte>, at: nat, text: seq<byte>, nuls: set<int>, m': seq<byte>) {
    && |m'| == |m| && at + |text| <= |m|
    && forall j {:trigger m'[j]} :: 0 <= j < |m| ==>
         m'[j] == if at <= j < at + |text| then text[j - at] else if j in nuls then 0 else m[j]
  }

  /** m with a word's text at position at and the NULs that expand_word writes. */
  ghost predicate Expanded(m: seq<byte>, at: nat, parts: seq<seq<byte>>, m': seq<byte>) {
    var text := Joined(parts, |parts|);
    && |m'| == |m| && at + |text| <= |m|
    && forall j {:trigger m'[j]} :: 0 <= j < |m| ==>
         m'[j] == if at <= j < at + |text| then text[j - at] else if NulAt(parts, |parts|, at, j) then 0 else m[j]
  }

  /** expand_word into the buffer at position at; false where the shell exits. The buffer
      is followed by at least one more byte of somebody's memory. */
  method ExpandWord(line: seq<byte>, word: Word, mem: array<byte>, at: nat) returns (ok: bool)
    requires forall i :: 0 <= i < |word.fragments| ==> word.fragments[i].In(line)
    requires at + LIMIT + 1 <= mem.Length
    modifies mem
    ensures ok <==> |Text(line, word.fragments)| < LIMIT
    ensures ok ==> Expanded(old(mem[..]), at, Parts(line, word.fragments), mem[..])
  {
    JoinedIsText(line, word.fragments);
    ok := ExpandParts(Parts(line, word.fragments), mem, at);
  }

  /** Its loop over the fragments. */
  method ExpandParts(parts: seq<seq<byte>>, mem: array<byte>, at: nat) returns (ok: bool)
    requires at + LIMIT + 1 <= mem.Length
    modifies mem
    ensures ok <==> |Joined(parts, |parts|)| < LIMIT
    ensures ok ==> Expanded(old(mem[..]), at, parts, mem[..])
  {
    var length: nat := 0;
    ghost var m := mem[..];
    for k := 0 to |parts|
      invariant length == |Joined(parts, k)| < LIMIT
      invariant Laid(m, at, Joined(parts, k), Nuls(parts, k, at), mem[..])
    {
      JoinedGrows(parts, k + 1, |parts|);
      if length + |parts[k]| >= LIMIT {
        return false;
      }
      AppendFragment(m, parts[k], mem, at, Joined(parts, k), Nuls(parts, k, at), length);
      length := length + |parts[k]|;
    }
    LaidIsExpanded(m, at, parts, mem[..]);
    ok := true;
  }

  /** memcpy of one fragment and the NUL after it. */
  method AppendFragment(ghost m: seq<byte>, content: seq<byte>, mem: array<byte>, at: nat, ghost text: seq<byte>,
                        ghost nuls: set<int>, length: nat)
    requires length == |text| && at + length + |content| + 1 < mem.Length
    requires Laid(m, at, text, nuls, mem[..])
    modifies mem
    ensures Laid(m, at, text + content, nuls + {at + |text + content| + 1}, mem[..])
  {
    ghost var before := mem[..];
    CopyFragment(mem, at + length, content);
    LaidMore(m, at, text, nuls, content, before, mem[..]);
  }

  /** The text of a fragment and the NUL one past the byte behind it. */
  method CopyFragment(mem: array<byte>, at: nat, text: seq<byte>)
    requires at + |text| + 1 < mem.Length
    modifies mem
    ensures Copied(old(mem[..]), at, text, mem[..])
  {
    CopyText(mem, at, text);
    mem[at + |text| + 1] := 0;
  }

  ghost predicate Copied(before: seq<byte>, at: nat, text: seq<byte>, after: seq<byte>) {
    && |after| == |before| && at + |text| + 1 < |before|
    && forall j {:trigger after[j]} :: 0 <= j < |before| ==>
         after[j] == if at <= j < at + |text| then text[j - at] else if j == at + |text| + 1 then 0 else before[j]
  }

  /** memcpy from the line. */
  method CopyText(mem: array<byte>, at: nat, text: seq<byte>)
    requires at + |text| <= mem.Length
    modifies mem
    ensures forall j :: 0 <= j < mem.Length ==>
      mem[j] == if at <= j < at + |text| then text[j - at] else old(mem[j])
  {
    for i := 0 to |text|
      invariant forall j :: 0 <= j < mem.Length ==> mem[j] == if at <= j < at + i then text[j - at] else old(mem[j])
    {
      mem[at + i] := text[i];
    }
  }

  lemma LaidMore(m: seq<byte>, at: nat, text: seq<byte>, nuls: set<int>, content: seq<byte>, before: seq<byte>, after: seq<byte>)
    requires Laid(m, at, text, nuls, before) && Copied(before, at + |text|, content, after)
    ensures Laid(m, at, text + content, nuls + {at + |text + content| + 1}, after)
  {}

  lemma LaidIsExpanded(m: seq<byte>, at: nat, parts: seq<seq<byte>>, m': seq<byte>)
    requires Laid(m, at, Joined(parts, |parts|), Nuls(parts, |parts|, at), m')
    ensures Expanded(m, at, parts, m')
  {
    forall j | 0 <= j < |m|
      ensures j in Nuls(parts, |parts|, at) <==> NulAt(parts, |parts|, at, j)
    {
      NulsAre(parts, |parts|, at, j);
    }
  }

  /** The expanded word reads back as a C string exactly when the byte after it was zero
      before, or the fragments but the last one character leave their NUL there. */
  lemma TerminatedExactlyWhen(m: seq<byte>, at: nat, parts: seq<seq<byte>>, text: seq<byte>, m': seq<byte>)
    requires text == Joined(parts, |parts|) && 0 !in text && |text| < LIMIT
    requires Expanded(m, at, parts, m') && at + LIMIT < |m|
    ensures CStrings.CString(m', at) == text <==> m[at + |text|] == 0 || NulAt(parts, |parts|, at, at + |text|)
  {
    assert m'[at..at + |text|] == text;
    CStrings.CStringIs(m', at, text);
  }

  /** The memory after the buffer keeps its byte, unless it was zero anyway, exactly when
      the word is shorter than 399 bytes. */
  lemma StaysInBuffer(m: seq<byte>, at: nat, parts: seq<seq<byte>>, text: seq<byte>, m': seq<byte>)
    requires parts != [] && text == Joined(parts, |parts|) && |text| < LIMIT
    requires Expanded(m, at, parts, m') && at + LIMIT < |m|
    ensures (forall j :: 0 <= j < |m| && !(at <= j < at + LIMIT) ==> m'[j] == m[j])
       <==> |text| < LIMIT - 1 || m[at + LIMIT] == 0
  {
    BytesOutside(m, at, parts, text, m');
    LastByte(m, at, |text| == LIMIT - 1, m');
  }

  lemma LastByte(m: seq<byte>, at: nat, cleared: bool, m': seq<byte>)
    requires |m'| == |m| && at + LIMIT < |m|
    requires forall j :: 0 <= j < |m| && !(at <= j < at + LIMIT) ==> m'[j] == if j == at + LIMIT && cleared then 0 else m[j]
    ensures (forall j :: 0 <= j < |m| && !(at <= j < at + LIMIT) ==> m'[j] == m[j]) <==> !cleared || m[at + LIMIT] == 0
  {
    assert m'[at + LIMIT] == if cleared then 0 else m[at + LIMIT];
  }

  lemma BytesOutside(m: seq<byte>, at: nat, parts: seq<seq<byte>>, text: seq<byte>, m': seq<byte>)
    requires parts != [] && text == Joined(parts, |parts|) && |text| < LIMIT
    requires Expanded(m, at, parts, m') && at + LIMIT < |m|
    ensures |m'| == |m|
    ensures forall j :: 0 <= j < |m| && !(at <= j < at + LIMIT) ==> m'[j] == if j == at + LIMIT && |text| == LIMIT - 1 then 0 else m[j]
  {
    forall j | 0 <= j < |m| && !(at <= j < at + LIMIT)
      ensures m'[j] == if j == at + LIMIT && |text| == LIMIT - 1 then 0 else m[j]
    {
      ByteOutside(m, at, parts, text, m', j);
    }
  }

  lemma ByteOutside(m: seq<byte>, at: nat, parts: seq<seq<byte>>, text: seq<byte>, m': seq<byte>, j: nat)
    requires parts != [] && text == Joined(parts, |parts|) && |text| < LIMIT
    requires Expanded(m, at, parts, m') && j < |m| && !(at <= j < at + LIMIT)
    ensures m'[j] == if j == at + LIMIT && |text| == LIMIT - 1 then 0 else m[j]
  {
    NulOutside(parts, at, j);
  }

  lemma NulOutside(parts: seq<seq<byte>>, at: nat, j: nat)
    requires parts != [] && |Joined(parts, |parts|)| < LIMIT && !(at <= j < at + LIMIT)
    ensures NulAt(parts, |parts|, at, j) <==> j == at + LIMIT && |Joined(parts, |parts|)| == LIMIT - 1
  {
    if NulAt(parts, |parts|, at, j) {
      var k :| 0 < k <= |parts| && at + |Joined(parts, k)| + 1 == j;
      JoinedGrows(parts, k, |parts|);
    } else {
      assert at + |Joined(parts, |parts|)| + 1 != j;
    }
  }

  // ---- exec_shell_line up to the fork

  datatype Outcome =
    | SyntaxError
    | NoCommand                // only redirects, or nothing at all
    | WordTooLong              // the shell exits
    | Command(argv: seq<seq<byte>>, redirects: seq<(nat, seq<byte>)>)

  function Arguments(tokens: seq<Token>): seq<seq<byte>> {
    if tokens == [] then []
    else
      var last := tokens[|tokens| - 1];
      Arguments(tokens[..|tokens| - 1]) + (if last.kind.Argument? then [last.text] else [])
  }

  function Redirects(tokens: seq<Token>): seq<(nat, seq<byte>)> {
    if tokens == [] then []
    else
      var last := tokens[|tokens| - 1];
      Redirects(tokens[..|tokens| - 1]) + (if last.kind.Redirect? then [(last.kind.fd, last.text)] else [])
  }

  /** A token as a C string holds it: up to its first NUL. */
  function Cut(t: Token): Token { Token(t.kind, CStrings.CString(t.text + [0], 0)) }

  function CutAll(tokens: seq<Token>): seq<Token> {
    if tokens == [] then [] else CutAll(tokens[..|tokens| - 1]) + [Cut(tokens[|tokens| - 1])]
  }

  lemma {:induction false} CutNothing(tokens: seq<Token>)
    requires forall t :: t in tokens ==> 0 !in t.text
    ensures CutAll(tokens) == tokens
    decreases |tokens|
  {
    if tokens != [] {
      var n := |tokens| - 1;
      CutNothing(tokens[..n]);
      CutOne(tokens[n]);
    }
  }

  /** A text with a NUL is what is before the first one. */
  lemma CutAtNul(t: Token, k: nat)
    requires k < |t.text| && t.text[k] == 0 && 0 !in t.text[..k]
    ensures Cut(t) == Token(t.kind, t.text[..k])
  {
    var m := t.text + [0];
    assert m[0..k] == t.text[..k];
    CStrings.CStringIs(m, 0, t.text[..k]);
  }

  lemma CutOne(t: Token)
    requires 0 !in t.text
    ensures Cut(t) == t
  {
    CStrings.CStringIs(t.text + [0], 0, t.text);
  }

  /** Two buffers that agree up to a NUL hold the same C string. */
  lemma {:induction false} CStringSame(m: seq<byte>, m': seq<byte>, at: nat, n: nat)
    requires at <= n < |m| && n < |m'| && m[n] == 0 == m'[n]
    requires forall i :: at <= i < n ==> m[i] == m'[i]
    ensures CStrings.CString(m, at) == CStrings.CString(m', at)
    decreases n - at
  {
    if at < n { CStringSame(m, m', at + 1, n); }
  }

  ghost predicate Fits(tokens: seq<Token>) { forall t :: t in tokens ==> |t.text| < LIMIT }

  /** What exec_shell_line makes of a line, in terms of the scanner alone. */
  ghost predicate Executes(line: seq<byte>, o: Outcome) {
    var tokens := ScanLine(line);
    if tokens.None? then o == SyntaxError
    else if Arguments(tokens.value) == [] then o == NoCommand
    else if !Fits(tokens.value) then o == WordTooLong
    else o == Command(Arguments(CutAll(tokens.value)), Redirects(CutAll(tokens.value)))
  }

  lemma {:induction false} TokensSnoc(line: seq<byte>, es: seq<Element>, k: nat)
    requires k < |es| && forall i :: 0 <= i < |es| ==> Sound(line, es[i])
    ensures Tokens(line, es[..k + 1]) == Tokens(line, es[..k]) + [TokenOf(line, es[k])]
    decreases k
  {
    var (longer, shorter) := (es[..k + 1], es[..k]);
    if k == 0 {
      assert longer[1..] == [];
    } else {
      assert longer[1..] == es[1..][..k] && shorter[1..] == es[1..][..k - 1];
      TokensSnoc(line, es[1..], k - 1);
    }
  }

  lemma {:induction false} TokenAt(line: seq<byte>, es: seq<Element>, k: nat)
    requires k < |es| && forall i :: 0 <= i < |es| ==> Sound(line, es[i])
    ensures TokenOf(line, es[k]) in Tokens(line, es)
    decreases k
  {
    if k > 0 { TokenAt(line, es[1..], k - 1); }
  }

  /** The loop that counts the words. */
  method CountWords(line: seq<byte>, es: seq<Element>) returns (words: nat)
    requires forall i :: 0 <= i < |es| ==> Sound(line, es[i])
    ensures words == |Arguments(Tokens(line, es))|
  {
    words := 0;
    for k := 0 to |es|
      invariant words == |Arguments(Tokens(line, es[..k]))|
    {
      TokensSnoc(line, es, k);
      if es[k].operator.None? { words := words + 1; }
    }
    assert es[..|es|] == es;
  }

  /** A zero-filled buffer, expanded, read as a C string is the token's text, up to any NUL
      in it. */
  method ExpandFresh(line: seq<byte>, e: Element) returns (text: Option<seq<byte>>)
    requires Sound(line, e)
    ensures text == if |TokenOf(line, e).text| < LIMIT then Some(Cut(TokenOf(line, e)).text) else None
  {
    var buffer := new byte[LIMIT + 1](_ => 0);
    ghost var m := buffer[..];
    var ok := ExpandWord(line, e.word, buffer, 0);
    if !ok {
      return None;
    }
    ghost var word := TokenOf(line, e).text;
    JoinedIsText(line, e.word.fragments);
    CStringSame(buffer[..], word + [0], 0, |word|);
    return Some(CStrings.CString(buffer[..], 0));
  }

  /** The loop that expands the words and the redirect targets; None where the shell exits. */
  method ExpandAll(line: seq<byte>, es: seq<Element>) returns (r: Option<(seq<seq<byte>>, seq<(nat, seq<byte>)>)>)
    requires forall i :: 0 <= i < |es| ==> Sound(line, es[i])
    ensures var tokens := Tokens(line, es);
            r == if Fits(tokens) then Some((Arguments(CutAll(tokens)), Redirects(CutAll(tokens)))) else None
  {
    var argv: seq<seq<byte>>, redirects: seq<(nat, seq<byte>)> := [], [];
    ghost var seen: seq<Token> := [];
    for k := 0 to |es|
      invariant seen == Tokens(line, es[..k]) && Fits(seen)
      invariant argv == Arguments(CutAll(seen)) && redirects == Redirects(CutAll(seen))
    {
      TokensSnoc(line, es, k);
      ghost var t := TokenOf(line, es[k]);
      NextToken(seen, t);
      NextArgument(CutAll(seen), Cut(t));
      var text := ExpandFresh(line, es[k]);
      if text.None? {
        TokenAt(line, es, k);
        return None;
      }
      seen := seen + [t];
      if es[k].operator.None? {
        argv := argv + [text.value];
      } else {
        redirects := redirects + [(if es[k].operator.value == LESS then 0 else 1, text.value)];
      }
    }
    assert es[..|es|] == es;
    return Some((argv, redirects));
  }

  lemma NextToken(tokens: seq<Token>, t: Token)
    ensures CutAll(tokens + [t]) == CutAll(tokens) + [Cut(t)]
    ensures Fits(tokens) && |t.text| < LIMIT ==> Fits(tokens + [t])
  {
    assert (tokens + [t])[..|tokens|] == tokens;
  }

  /** Arguments and redirects are told apart by kind, each list in the order of the line. */
  lemma NextArgument(tokens: seq<Token>, t: Token)
    ensures Arguments([]) == [] && Redirects([]) == []
    ensures Arguments(tokens + [t]) == Arguments(tokens) + (if t.kind.Argument? then [t.text] else [])
    ensures Redirects(tokens + [t]) == Redirects(tokens) + (if t.kind.Redirect? then [(t.kind.fd, t.text)] else [])
  {
    assert (tokens + [t])[..|tokens|] == tokens;
  }

  /** exec_shell_line, up to running the command. */
  method Interpret(line: seq<byte>) returns (o: Outcome)
    ensures Executes(line, o)
  {
    ParserIsScanner(line);
    var statement := ParseStatement(line);
    if statement.end != |line| {
      return SyntaxError;
    }
    var words := CountWords(line, statement.elements);
    if words == 0 {
      return NoCommand;
    }
    var lists := ExpandAll(line, statement.elements);
    o := if lists.None? then WordTooLong else Command(lists.value.0, lists.value.1);
  }

  /** Quoted words come back as the argument list, and quoted targets as the redirects. */
  lemma QuotedCommand(tokens: seq<Token>, o: Outcome)
    requires forall t :: t in tokens ==> Quotable(t) && 0 !in t.text && |t.text| < LIMIT
    requires Arguments(tokens) != [] && Executes(Render(tokens), o)
    ensures o == Command(Arguments(tokens), Redirects(tokens))
  {
    RunRendered(Scan([], Start), tokens);
    assert [] + tokens == tokens;
    CutNothing(tokens);
  }

  /** However a line's words are spelled, bare or quoted in pieces, with blanks and redirects
      anywhere among them: it has no command without an argument, ends the shell with a word of
      400 bytes or more, and else is the command its words say, each up to its first NUL. */
  lemma SpelledOutcome(ps: seq<ShellSyntax.Phrase>, o: Outcome)
    requires ShellSyntax.GoodLine(ps)
    ensures var tokens := ShellSyntax.Meanings(ps);
            Executes(ShellSyntax.Spell(ps), o) <==>
              o == if Arguments(tokens) == [] then NoCommand
                   else if exists t :: t in tokens && |t.text| >= 400 then WordTooLong
                   else Command(Arguments(CutAll(tokens)), Redirects(CutAll(tokens)))
  {
    ShellSyntax.ScansMeaning(ps);
  }

  /** Every other line, and no such line, is a syntax error. */
  lemma ErrorOutcome(line: seq<byte>, o: Outcome)
    requires Executes(line, o)
    ensures o == SyntaxError <==> !exists ps :: ShellSyntax.GoodLine(ps) && ShellSyntax.Spell(ps) == line
  {
    ShellSyntax.AcceptsExactly(line);
    ParserIsScanner(line);
  }

  /** Without NULs the command is what its words say. */
  lemma SpelledCommand(ps: seq<ShellSyntax.Phrase>, o: Outcome)
    requires ShellSyntax.GoodLine(ps) && Arguments(ShellSyntax.Meanings(ps)) != []
    requires forall t :: t in ShellSyntax.Meanings(ps) ==> 0 !in t.text && |t.text| < 400
    requires Executes(ShellSyntax.Spell(ps), o)
    ensures o == Command(Arguments(ShellSyntax.Meanings(ps)), Redirects(ShellSyntax.Meanings(ps)))
  {
    SpelledOutcome(ps, o);
    CutNothing(ShellSyntax.Meanings(ps));
  }
}
