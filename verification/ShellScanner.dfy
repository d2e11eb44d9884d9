/** An independent reading of a shell line, one character at a time, that removes quotes
    as it goes; the parser accepts the same lines and finds the same words. */
module ShellScanner {
  import opened Bytes
  import opened Options
  import opened ShellParser

  datatype Kind = Argument | Redirect(fd: nat)

  /** A word with its quotes removed, and what it is for. */
  datatype Token = Token(kind: Kind, text: seq<byte>)

  datatype Mode =
    | Start
    | Gap
    | Pending(fd: nat)                       // after an operator, before its word
    | InWord(kind: Kind, text: seq<byte>)
    | InQuote(kind: Kind, text: seq<byte>)
    | Bad

  datatype Scan = Scan(done: seq<Token>, mode: Mode)
  {
    /** Between words an ordinary character or a quote opens one; an operator waits for one. */
    function Open(kind: Kind, c: byte): Scan {
      if c == QUOTE then Scan(done, InQuote(kind, []))
      else if Ordinary(c) then Scan(done, InWord(kind, [c]))
      else Scan(done, Bad)
    }

    function Operator(c: byte): Scan { Scan(done, Pending(if c == LESS then 0 else 1)) }

    function Next(c: byte): Scan {
      match mode
      case Bad => this
      case Start => if IsOperator(c) then Operator(c) else Open(Argument, c)
      case Gap => if c == BLANK then this else if IsOperator(c) then Operator(c) else Open(Argument, c)
      case Pending(fd) => if c == BLANK then this else Open(Redirect(fd), c)
      case InQuote(kind, text) => Scan(done, if c == QUOTE then InWord(kind, text) else InQuote(kind, text + [c]))
      case InWord(kind, text) =>
        if c == QUOTE then Scan(done, InQuote(kind, text))
        else if Ordinary(c) then Scan(done, InWord(kind, text + [c]))
        else if c == BLANK then Scan(done + [Token(kind, text)], Gap)
        else if IsOperator(c) then Scan(done + [Token(kind, text)], Pending(0)).Operator(c)
        else Scan(done, Bad)
    }

    /** A line may be empty or must end in a word: not in a blank, an open quote or an
        operator without its word. */
    function Result(): Option<seq<Token>> {
      match mode
      case Start => Some(done)
      case InWord(kind, text) => Some(done + [Token(kind, text)])
      case _ => None
    }

    function Run(line: seq<byte>, i: nat): Scan
      requires i <= |line|
      decreases |line| - i
    {
      if i == |line| then this else Next(line[i]).Run(line, i + 1)
    }
  }

  function ScanLine(line: seq<byte>): Option<seq<Token>> {
    Scan([], Start).Run(line, 0).Result()
  }

  // ---- what a parse tree says

  function Text(line: seq<byte>, fragments: seq<Fragment>): seq<byte>
    requires forall k :: 0 <= k < |fragments| ==> fragments[k].In(line)
  {
    if fragments == [] then [] else fragments[0].Content(line) + Text(line, fragments[1..])
  }

  ghost predicate Sound(line: seq<byte>, e: Element) {
    forall k :: 0 <= k < |e.word.fragments| ==> e.word.fragments[k].In(line)
  }

  function KindOf(e: Element): Kind {
    if e.operator.None? then Argument else Redirect(if e.operator.value == LESS then 0 else 1)
  }

  function TokenOf(line: seq<byte>, e: Element): Token
    requires Sound(line, e)
  {
    Token(KindOf(e), Text(line, e.word.fragments))
  }

  function Tokens(line: seq<byte>, es: seq<Element>): seq<Token>
    requires forall k :: 0 <= k < |es| ==> Sound(line, es[k])
  {
    if es == [] then [] else [TokenOf(line, es[0])] + Tokens(line, es[1..])
  }

  lemma {:induction false} ElementsSound(line: seq<byte>, i: nat)
    requires i <= |line|
    ensures forall k :: 0 <= k < |ElementsFrom(line, i)| ==> Sound(line, ElementsFrom(line, i)[k])
    decreases |line| - i
  {
    var e := ElementAt(line, i);
    if e.Some? { ElementsSound(line, SkipBlanks(line, e.value.end)); }
  }

  // ---- the scanner across each phrase of the grammar

  lemma {:induction false} RunBad(s: Scan, line: seq<byte>, i: nat)
    requires i <= |line| && s.mode.Bad?
    ensures s.Run(line, i) == s
    decreases |line| - i
  {
    if i < |line| { RunBad(s, line, i + 1); }
  }

  lemma {:induction false} RunBlanks(s: Scan, line: seq<byte>, i: nat)
    requires i <= |line| && (s.mode.Gap? || s.mode.Pending?)
    ensures s.Run(line, i) == s.Run(line, SkipBlanks(line, i))
    decreases |line| - i
  {
    if i < |line| && line[i] == BLANK { RunBlanks(s, line, i + 1); }
  }

  lemma {:induction false} RunOrdinary(s: Scan, line: seq<byte>, i: nat)
    requires i <= |line| && s.mode.InWord?
    ensures s.Run(line, i)
         == Scan(s.done, InWord(s.mode.kind, s.mode.text + line[i..OrdinaryEnd(line, i)])).Run(line, OrdinaryEnd(line, i))
    decreases |line| - i
  {
    if i < |line| && Ordinary(line[i]) {
      RunOrdinary(s.Next(line[i]), line, i + 1);
      var j := OrdinaryEnd(line, i);
      assert s.mode.text + [line[i]] + line[i + 1..j] == s.mode.text + line[i..j];
    } else {
      assert s.mode.text + line[i..i] == s.mode.text;
    }
  }

  lemma {:induction false} RunQuote(s: Scan, line: seq<byte>, i: nat)
    requires i <= |line| && s.mode.InQuote?
    ensures var close := ClosingQuote(line, i);
            if close.None? then s.Run(line, i).Result().None?
            else s.Run(line, i) == Scan(s.done, InWord(s.mode.kind, s.mode.text + line[i..close.value])).Run(line, close.value + 1)
    decreases |line| - i
  {
    if i < |line| && line[i] != QUOTE {
      RunQuote(s.Next(line[i]), line, i + 1);
      var close := ClosingQuote(line, i);
      if close.Some? {
        assert s.mode.text + [line[i]] + line[i + 1..close.value] == s.mode.text + line[i..close.value];
      }
    } else if i < |line| {
      assert s.mode.text + line[i..i] == s.mode.text;
    }
  }

  /** Within a word: through one more fragment. */
  lemma RunFragment(s: Scan, line: seq<byte>, i: nat)
    requires i <= |line| && s.mode.InWord? && FragmentAt(line, i).Some?
    ensures var f := FragmentAt(line, i).value;
            s.Run(line, i) == Scan(s.done, InWord(s.mode.kind, s.mode.text + f.Content(line))).Run(line, f.end)
  {
    if line[i] == QUOTE {
      RunQuote(s.Next(line[i]), line, i + 1);
    } else {
      RunOrdinary(s, line, i);
    }
  }

  function EndOf(fs: seq<Fragment>, i: nat): nat {
    if fs == [] then i else fs[|fs| - 1].end
  }

  /** Within a word: through all its fragments. */
  lemma {:induction false} RunFragments(s: Scan, line: seq<byte>, i: nat)
    requires i <= |line| && s.mode.InWord?
    ensures var fs := FragmentsFrom(line, i);
            && EndOf(fs, i) <= |line| && FragmentAt(line, EndOf(fs, i)).None?
            && s.Run(line, i) == Scan(s.done, InWord(s.mode.kind, s.mode.text + Text(line, fs))).Run(line, EndOf(fs, i))
    decreases |line| - i
  {
    var f := FragmentAt(line, i);
    if f.None? {
      assert s.mode.text + [] == s.mode.text;
    } else {
      var content := f.value.Content(line);
      var next := Scan(s.done, InWord(s.mode.kind, s.mode.text + content));
      RunFragment(s, line, i);
      RunFragments(next, line, f.value.end);
      var fs := FragmentsFrom(line, f.value.end);
      assert FragmentsFrom(line, i)[1..] == fs;
      assert (s.mode.text + content) + Text(line, fs) == s.mode.text + Text(line, FragmentsFrom(line, i));
    }
  }

  /** A word inside between words or after an operator is read to its end. */
  lemma RunWord(s: Scan, line: seq<byte>, i: nat, kind: Kind)
    requires i < |line| && s.Next(line[i]) == s.Open(kind, line[i])
    ensures var w := WordAt(line, i);
            if w.None? then s.Run(line, i).Result().None?
            else && FragmentAt(line, w.value.end).None?
                 && s.Run(line, i) == Scan(s.done, InWord(kind, Text(line, w.value.fragments))).Run(line, w.value.end)
  {
    var f := FragmentAt(line, i);
    if f.None? {
      if line[i] == QUOTE { RunQuote(s.Next(line[i]), line, i + 1); } else { RunBad(s.Next(line[i]), line, i + 1); }
    } else {
      var empty := Scan(s.done, InWord(kind, []));
      assert empty.Next(line[i]) == s.Next(line[i]) by { assert [] + [line[i]] == [line[i]]; }
      RunFragments(empty, line, i);
      assert [] + Text(line, FragmentsFrom(line, i)) == Text(line, FragmentsFrom(line, i));
    }
  }

  /** One element, begun where the scanner is between words or just after one. */
  lemma RunElement(s: Scan, line: seq<byte>, i: nat, done: seq<Token>)
    requires i < |line| && line[i] != BLANK
    requires || (s.mode.InWord? && FragmentAt(line, i).None? && done == s.done + [Token(s.mode.kind, s.mode.text)])
             || ((s.mode.Gap? || s.mode.Start?) && done == s.done)
    ensures var e := ElementAt(line, i);
            if e.None? then s.Run(line, i).Result().None?
            else && Sound(line, e.value) && FragmentAt(line, e.value.end).None?
                 && s.Run(line, i)
                    == Scan(done, InWord(KindOf(e.value), TokenOf(line, e.value).text)).Run(line, e.value.end)
  {
    if IsOperator(line[i]) {
      var pending := s.Next(line[i]);
      var j := SkipBlanks(line, i + 1);
      RunBlanks(pending, line, i + 1);
      if j < |line| { RunWord(pending, line, j, Redirect(pending.mode.fd)); }
    } else if s.mode.InWord? {
      if line[i] == QUOTE { RunQuote(s.Next(line[i]), line, i + 1); } else { RunBad(s.Next(line[i]), line, i + 1); }
    } else {
      RunWord(s, line, i, Argument);
    }
  }

  lemma FirstOf(line: seq<byte>, e: Element, rest: seq<Element>, done: seq<Token>, start: nat)
    requires Sound(line, e) && forall k :: 0 <= k < |rest| ==> Sound(line, rest[k])
    ensures done + Tokens(line, [e] + rest) == done + [TokenOf(line, e)] + Tokens(line, rest)
    ensures LastEnd([e] + rest, start) == LastEnd(rest, e.end)
  {
    assert ([e] + rest)[1..] == rest;
    assert done + ([TokenOf(line, e)] + Tokens(line, rest)) == done + [TokenOf(line, e)] + Tokens(line, rest);
  }

  lemma NothingAtEnd(line: seq<byte>)
    ensures ElementsFrom(line, |line|) == []
  {
    assert FragmentAt(line, |line|).None?;
    assert FragmentsFrom(line, |line|) == [];
  }

  /** The rest of a line, once an element has ended at position end. */
  lemma {:induction false} RunRest(s: Scan, line: seq<byte>, end: nat)
    requires end <= |line| && s.mode.InWord? && FragmentAt(line, end).None?
    ensures var es := ElementsFrom(line, SkipBlanks(line, end));
            && (forall k :: 0 <= k < |es| ==> Sound(line, es[k]))
            && s.Run(line, end).Result()
               == (if LastEnd(es, end) == |line|
                   then Some(s.done + [Token(s.mode.kind, s.mode.text)] + Tokens(line, es)) else None)
    decreases |line| - end
  {
    var i := SkipBlanks(line, end);
    var es := ElementsFrom(line, i);
    ElementsSound(line, i);
    var done := s.done + [Token(s.mode.kind, s.mode.text)];
    var gap := if i == end then s else Scan(done, Gap);
    if i > end { RunBlanks(s.Next(line[end]), line, end + 1); }
    assert s.Run(line, end) == gap.Run(line, i);
    if i < |line| {
      RunElement(gap, line, i, done);
      var e := ElementAt(line, i);
      if e.Some? {
        var t := TokenOf(line, e.value);
        RunRest(Scan(done, InWord(t.kind, t.text)), line, e.value.end);
        ElementsSound(line, SkipBlanks(line, e.value.end));
        FirstOf(line, e.value, ElementsFrom(line, SkipBlanks(line, e.value.end)), done, end);
      }
    } else {
      NothingAtEnd(line);
      assert done + Tokens(line, []) == done;
    }
  }

  /** The parser accepts exactly the lines the scanner accepts, and finds the same words. */
  lemma ParserIsScanner(line: seq<byte>)
    ensures var es := ElementsFrom(line, 0);
            && (forall k :: 0 <= k < |es| ==> Sound(line, es[k]))
            && ScanLine(line) == if LastEnd(es, 0) == |line| then Some(Tokens(line, es)) else None
  {
    var es, start := ElementsFrom(line, 0), Scan([], Start);
    ElementsSound(line, 0);
    if line == [] {
      NothingAtEnd(line);
    } else if line[0] == BLANK {
      assert FragmentsFrom(line, 0) == [];
      RunBad(start.Next(line[0]), line, 1);
    } else {
      RunElement(start, line, 0, []);
      var e := ElementAt(line, 0);
      if e.Some? {
        var t := TokenOf(line, e.value);
        var rest := ElementsFrom(line, SkipBlanks(line, e.value.end));
        RunRest(Scan([], InWord(t.kind, t.text)), line, e.value.end);
        FirstOf(line, e.value, rest, [], 0);
        assert [] + Tokens(line, es) == Tokens(line, es);
      }
    }
  }

  // ---- round trip: quote every word, join with blanks

  function Quoted(t: Token): seq<byte> {
    var word := [QUOTE] + t.text + [QUOTE];
    if t.kind.Argument? then word else [if t.kind.fd == 0 then LESS else GREATER] + word
  }

  function Render(tokens: seq<Token>): seq<byte> {
    if tokens == [] then []
    else if |tokens| == 1 then Quoted(tokens[0])
    else Quoted(tokens[0]) + [BLANK] + Render(tokens[1..])
  }

  /** A word that single quotes can hold, redirected to standard input or output if at all. */
  ghost predicate Quotable(t: Token) {
    QUOTE !in t.text && (t.kind.Redirect? ==> t.kind.fd <= 1)
  }

  /** Scanning the front of a line. */
  lemma {:induction false} RunPast(s: Scan, front: seq<byte>, rest: seq<byte>, i: nat)
    requires i <= |front|
    ensures s.Run(front + rest, i) == s.Run(front, i).Run(front + rest, |front|)
    decreases |front| - i
  {
    if i < |front| {
      assert (front + rest)[i] == front[i];
      RunPast(s.Next(front[i]), front, rest, i + 1);
    }
  }

  lemma {:induction false} RunSuffix(s: Scan, front: seq<byte>, rest: seq<byte>, i: nat)
    requires i <= |rest|
    ensures s.Run(front + rest, |front| + i) == s.Run(rest, i)
    decreases |rest| - i
  {
    if i < |rest| {
      assert (front + rest)[|front| + i] == rest[i];
      RunSuffix(s.Next(rest[i]), front, rest, i + 1);
    }
  }

  lemma RunAppend(s: Scan, front: seq<byte>, rest: seq<byte>)
    ensures s.Run(front + rest, 0) == s.Run(front, 0).Run(rest, 0)
  {
    RunPast(s, front, rest, 0);
    RunSuffix(s.Run(front, 0), front, rest, 0);
  }

  lemma {:induction false} FirstQuote(w: seq<byte>, i: nat)
    requires i <= |w| && QUOTE !in w
    ensures ClosingQuote(w + [QUOTE], i) == Some(|w|)
    decreases |w| - i
  {
    if i < |w| {
      assert w[i] in w;
      FirstQuote(w, i + 1);
    }
  }

  lemma RunQuoted(s: Scan, t: Token)
    requires (s.mode.Start? || s.mode.Gap?) && Quotable(t)
    ensures s.Run(Quoted(t), 0) == Scan(s.done, InWord(t.kind, t.text))
  {
    var body := t.text + [QUOTE];
    var word := [QUOTE] + t.text + [QUOTE];
    assert word == [QUOTE] + body;
    RunBody(s.done, t.kind, t.text);
    if t.kind.Argument? {
      RunFirst(s, QUOTE, body);
    } else {
      var op := if t.kind.fd == 0 then LESS else GREATER;
      RunFirst(s, op, word);
      RunFirst(s.Next(op), QUOTE, body);
    }
  }

  /** What follows an opening quote, to the closing one. */
  lemma RunBody(done: seq<Token>, kind: Kind, text: seq<byte>)
    requires QUOTE !in text
    ensures Scan(done, InQuote(kind, [])).Run(text + [QUOTE], 0) == Scan(done, InWord(kind, text))
  {
    var body := text + [QUOTE];
    FirstQuote(text, 0);
    RunQuote(Scan(done, InQuote(kind, [])), body, 0);
    assert [] + body[0..|text|] == text;
  }

  lemma RunFirst(s: Scan, b: byte, rest: seq<byte>)
    ensures s.Run([b] + rest, 0) == s.Next(b).Run(rest, 0)
  {
    RunSuffix(s.Next(b), [b], rest, 0);
  }

  lemma RunQuotedThenBlank(s: Scan, t: Token, rest: seq<byte>)
    requires (s.mode.Start? || s.mode.Gap?) && Quotable(t)
    ensures s.Run(Quoted(t) + [BLANK] + rest, 0) == Scan(s.done + [t], Gap).Run(rest, 0)
  {
    RunQuoted(s, t);
    var word := Scan(s.done, InWord(t.kind, t.text));
    RunAppend(s, Quoted(t) + [BLANK], rest);
    RunAppend(s, Quoted(t), [BLANK]);
    assert word.Run([BLANK], 0) == word.Next(BLANK).Run([BLANK], 1) == word.Next(BLANK);
    assert Token(t.kind, t.text) == t;
  }

  /** Quoting every word and joining with blanks is undone by reading the line. */
  lemma {:induction false} RunRendered(s: Scan, tokens: seq<Token>)
    requires (s.mode.Start? || s.mode.Gap?) && tokens != [] && forall t :: t in tokens ==> Quotable(t)
    ensures s.Run(Render(tokens), 0).Result() == Some(s.done + tokens)
    decreases |tokens|
  {
    var t, rest := tokens[0], tokens[1..];
    if rest == [] {
      RunQuoted(s, t);
      assert tokens == [Token(t.kind, t.text)];
    } else {
      RunRendered(Scan(s.done + [t], Gap), rest);
      RenderedMore(s, t, rest);
      assert tokens == [t] + rest;
    }
  }

  lemma RenderedMore(s: Scan, t: Token, rest: seq<Token>)
    requires (s.mode.Start? || s.mode.Gap?) && Quotable(t) && rest != []
    requires Scan(s.done + [t], Gap).Run(Render(rest), 0).Result() == Some(s.done + [t] + rest)
    ensures s.Run(Render([t] + rest), 0).Result() == Some(s.done + ([t] + rest))
  {
    RunQuotedThenBlank(s, t, Render(rest));
    assert ([t] + rest)[1..] == rest && s.done + [t] + rest == s.done + ([t] + rest);
  }

  /** Every list of words and redirects comes back from the line that quotes it. */
  lemma RoundTrip(tokens: seq<Token>)
    requires forall t :: t in tokens ==> Quotable(t)
    ensures var (line, es) := (Render(tokens), ElementsFrom(Render(tokens), 0));
            && LastEnd(es, 0) == |line|
            && (forall k :: 0 <= k < |es| ==> Sound(line, es[k]))
            && Tokens(line, es) == tokens
  {
    ParserIsScanner(Render(tokens));
    if tokens != [] {
      RunRendered(Scan([], Start), tokens);
      assert [] + tokens == tokens;
    }
  }
}
