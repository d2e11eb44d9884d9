/** The shell's language from the writing side: words made of bare and quoted pieces,
    operators and blanks, spelled out in bytes and read back. */
module ShellSyntax {
  import opened Bytes
  import opened Options
  import opened ShellParser
  import opened ShellScanner

  /** Part of a word: bare, or in single quotes. */
  datatype Piece = Bare(text: seq<byte>) | InQuotes(text: seq<byte>)

  /** A word behind blanks, perhaps with an operator, and blanks between the two. */
  datatype Phrase = Phrase(gap: nat, operator: Option<byte>, pad: nat, pieces: seq<Piece>)

  /** Bare text has no NUL, newline, quote, blank or operator in it, quoted text no quote. */
  ghost predicate GoodPiece(p: Piece) {
    match p
    case Bare(text) => text != [] && forall k :: 0 <= k < |text| ==> text[k] !in [0, 10, 39, 32, 60, 62]
    case InQuotes(text) => 39 !in text
  }

  ghost predicate GoodPieces(ps: seq<Piece>) { forall k :: 0 <= k < |ps| ==> GoodPiece(ps[k]) }

  ghost predicate GoodOperator(p: Phrase) {
    && (p.operator == None || p.operator == Some(60) || p.operator == Some(62))
    && (p.operator == None ==> p.pad == 0)
  }

  ghost predicate GoodPhrase(p: Phrase) { GoodOperator(p) && p.pieces != [] && GoodPieces(p.pieces) }

  /** No blank before the first phrase; before any other at least one, unless an operator
      begins it. */
  ghost predicate GoodLine(ps: seq<Phrase>) {
    && (forall k :: 0 <= k < |ps| ==> GoodPhrase(ps[k]))
    && (ps != [] ==> ps[0].gap == 0)
    && (forall k :: 0 < k < |ps| ==> ps[k].gap > 0 || ps[k].operator.Some?)
  }

  function SpellPiece(p: Piece): seq<byte> {
    match p
    case Bare(text) => text
    case InQuotes(text) => [39] + text + [39]
  }

  function SpellPieces(ps: seq<Piece>): seq<byte> {
    if ps == [] then [] else SpellPieces(ps[..|ps| - 1]) + SpellPiece(ps[|ps| - 1])
  }

  function SpellPhrase(p: Phrase): seq<byte> {
    (if p.operator.Some? then [p.operator.value] + Repeat(32, p.pad) else []) + SpellPieces(p.pieces)
  }

  /** The line, in bytes. */
  function Spell(ps: seq<Phrase>): seq<byte> {
    if ps == [] then []
    else Spell(ps[..|ps| - 1]) + (Repeat(32, ps[|ps| - 1].gap) + SpellPhrase(ps[|ps| - 1]))
  }

  /** What a word says: its pieces without quotes, joined. */
  function TextOf(ps: seq<Piece>): seq<byte> {
    if ps == [] then [] else TextOf(ps[..|ps| - 1]) + ps[|ps| - 1].text
  }

  /** Less-than redirects standard input, greater-than standard output. */
  function Meaning(p: Phrase): Token {
    Token(match p.operator case None => Argument case Some(c) => Redirect(if c == 60 then 0 else 1), TextOf(p.pieces))
  }

  function Meanings(ps: seq<Phrase>): seq<Token> {
    seq(|ps|, k requires 0 <= k < |ps| => Meaning(ps[k]))
  }

  // ---- the scanner over each of these

  /** Inside a word bare text is added to it. */
  lemma {:induction false} RunBare(done: seq<Token>, kind: Kind, text: seq<byte>, more: seq<byte>)
    requires forall k :: 0 <= k < |more| ==> more[k] !in [0, 10, 39, 32, 60, 62]
    ensures Scan(done, InWord(kind, text)).Run(more, 0) == Scan(done, InWord(kind, text + more))
    decreases |more|
  {
    if more == [] {
      assert text + more == text;
    } else {
      var c, rest := more[0], more[1..];
      assert c !in [0, 10, 39, 32, 60, 62] && more == [c] + rest;
      RunFirst(Scan(done, InWord(kind, text)), c, rest);
      RunBare(done, kind, text + [c], rest);
      assert text + [c] + rest == text + more;
    }
  }

  /** Inside quotes anything is, up to the closing one. */
  lemma {:induction false} RunInQuotes(done: seq<Token>, kind: Kind, text: seq<byte>, more: seq<byte>)
    requires 39 !in more
    ensures Scan(done, InQuote(kind, text)).Run(more + [39], 0) == Scan(done, InWord(kind, text + more))
    decreases |more|
  {
    if more == [] {
      assert more + [39] == [39] + [] && text + more == text;
      RunFirst(Scan(done, InQuote(kind, text)), 39, []);
    } else {
      var c, rest := more[0], more[1..];
      assert more + [39] == [c] + (rest + [39]);
      RunFirst(Scan(done, InQuote(kind, text)), c, rest + [39]);
      RunInQuotes(done, kind, text + [c], rest);
      assert text + [c] + rest == text + more;
    }
  }

  /** A further piece of a word. */
  lemma RunPiece(done: seq<Token>, kind: Kind, text: seq<byte>, p: Piece)
    requires GoodPiece(p)
    ensures Scan(done, InWord(kind, text)).Run(SpellPiece(p), 0) == Scan(done, InWord(kind, text + p.text))
  {
    match p
    case Bare(more) => RunBare(done, kind, text, more);
    case InQuotes(more) =>
      assert SpellPiece(p) == [39] + (more + [39]);
      RunFirst(Scan(done, InWord(kind, text)), 39, more + [39]);
      RunInQuotes(done, kind, text, more);
  }

  /** Where a word may begin, and what for. */
  ghost predicate Opens(mode: Mode, kind: Kind) {
    match kind
    case Argument => mode.Start? || mode.Gap?
    case Redirect(fd) => mode == Pending(fd)
  }

  /** The first piece of a word. */
  lemma RunFirstPiece(s: Scan, kind: Kind, p: Piece)
    requires Opens(s.mode, kind) && GoodPiece(p)
    ensures s.Run(SpellPiece(p), 0) == Scan(s.done, InWord(kind, p.text))
  {
    match p
    case Bare(text) =>
      assert text[0] !in [0, 10, 39, 32, 60, 62] && text == [text[0]] + text[1..];
      RunFirst(s, text[0], text[1..]);
      RunBare(s.done, kind, [text[0]], text[1..]);
    case InQuotes(text) =>
      assert SpellPiece(p) == [39] + (text + [39]) && [] + text == text;
      RunFirst(s, 39, text + [39]);
      RunInQuotes(s.done, kind, [], text);
  }

  lemma {:induction false} RunPieces(s: Scan, kind: Kind, ps: seq<Piece>)
    requires Opens(s.mode, kind) && ps != [] && GoodPieces(ps)
    ensures s.Run(SpellPieces(ps), 0) == Scan(s.done, InWord(kind, TextOf(ps)))
    decreases |ps|
  {
    var n := |ps| - 1;
    if n == 0 {
      RunFirstPiece(s, kind, ps[0]);
      assert ps[..0] == [] && [] + SpellPiece(ps[0]) == SpellPiece(ps[0]) && [] + ps[0].text == ps[0].text;
    } else {
      RunPieces(s, kind, ps[..n]);
      RunAppend(s, SpellPieces(ps[..n]), SpellPiece(ps[n]));
      RunPiece(s.done, kind, TextOf(ps[..n]), ps[n]);
    }
  }

  /** Blanks before a word and behind an operator. */
  lemma {:induction false} RunSpaces(s: Scan, n: nat)
    requires s.mode.Gap? || s.mode.Pending?
    ensures s.Run(Repeat(32, n), 0) == s
  {
    if n > 0 {
      assert Repeat<byte>(32, n) == [32] + Repeat(32, n - 1);
      RunFirst(s, 32, Repeat(32, n - 1));
      RunSpaces(s, n - 1);
    }
  }

  /** Blanks behind a word end it. */
  lemma RunGap(done: seq<Token>, t: Token, n: nat)
    requires n > 0
    ensures Scan(done, InWord(t.kind, t.text)).Run(Repeat(32, n), 0) == Scan(done + [t], Gap)
  {
    assert Repeat<byte>(32, n) == [32] + Repeat(32, n - 1);
    RunFirst(Scan(done, InWord(t.kind, t.text)), 32, Repeat(32, n - 1));
    RunSpaces(Scan(done + [t], Gap), n - 1);
  }

  /** An operator, its blanks and its word. */
  lemma RunRedirect(s: Scan, done: seq<Token>, p: Phrase)
    requires GoodPhrase(p) && p.operator.Some? && s.Next(p.operator.value) == Scan(done, Pending(Meaning(p).kind.fd))
    ensures s.Run(SpellPhrase(p), 0) == Scan(done, InWord(Meaning(p).kind, Meaning(p).text))
  {
    var op, after := p.operator.value, Scan(done, Pending(Meaning(p).kind.fd));
    var rest := Repeat(32, p.pad) + SpellPieces(p.pieces);
    assert SpellPhrase(p) == [op] + rest;
    RunFirst(s, op, rest);
    RunAppend(after, Repeat(32, p.pad), SpellPieces(p.pieces));
    RunSpaces(after, p.pad);
    RunPieces(after, Meaning(p).kind, p.pieces);
  }

  /** A phrase where a word may begin. */
  lemma RunPhrase(s: Scan, p: Phrase)
    requires GoodPhrase(p) && (s.mode.Start? || s.mode.Gap?)
    ensures s.Run(SpellPhrase(p), 0) == Scan(s.done, InWord(Meaning(p).kind, Meaning(p).text))
  {
    if p.operator.Some? {
      RunRedirect(s, s.done, p);
    } else {
      assert SpellPhrase(p) == SpellPieces(p.pieces);
      RunPieces(s, Argument, p.pieces);
    }
  }

  /** A phrase behind another. */
  lemma RunNext(done: seq<Token>, t: Token, p: Phrase)
    requires GoodPhrase(p) && (p.gap > 0 || p.operator.Some?)
    ensures Scan(done, InWord(t.kind, t.text)).Run(Repeat(32, p.gap) + SpellPhrase(p), 0)
         == Scan(done + [t], InWord(Meaning(p).kind, Meaning(p).text))
  {
    var s := Scan(done, InWord(t.kind, t.text));
    if p.gap > 0 {
      RunAppend(s, Repeat(32, p.gap), SpellPhrase(p));
      RunGap(done, t, p.gap);
      RunPhrase(Scan(done + [t], Gap), p);
    } else {
      assert Repeat<byte>(32, p.gap) + SpellPhrase(p) == SpellPhrase(p);
      RunRedirect(s, done + [t], p);
    }
  }

  lemma MeaningsSnoc(ps: seq<Phrase>, n: nat)
    requires |ps| == n + 1
    ensures Meanings(ps) == Meanings(ps[..n]) + [Meaning(ps[n])]
  {}

  lemma FrontAndLast(ps: seq<Phrase>, n: nat)
    requires |ps| == n + 1
    ensures ps == ps[..n] + [ps[n]] && (n == 0 ==> ps == [ps[0]])
  {}

  /** The first phrase of a line alone. */
  lemma RunOnly(p: Phrase)
    requires GoodPhrase(p) && p.gap == 0
    ensures Scan([], Start).Run(Spell([p]), 0) == Scan([], InWord(Meaning(p).kind, Meaning(p).text))
  {
    RunPhrase(Scan([], Start), p);
    assert [p][..0] == [] && Repeat<byte>(32, 0) + SpellPhrase(p) == SpellPhrase(p);
    assert Spell([p]) == [] + SpellPhrase(p) == SpellPhrase(p);
  }

  /** A line and one more phrase. */
  lemma RunMore(front: seq<Phrase>, last: Phrase, done: seq<Token>, t: Token)
    requires GoodPhrase(last) && (last.gap > 0 || last.operator.Some?)
    requires Scan([], Start).Run(Spell(front), 0) == Scan(done, InWord(t.kind, t.text))
    ensures Scan([], Start).Run(Spell(front + [last]), 0)
         == Scan(done + [t], InWord(Meaning(last).kind, Meaning(last).text))
  {
    assert (front + [last])[..|front|] == front;
    RunAppend(Scan([], Start), Spell(front), Repeat(32, last.gap) + SpellPhrase(last));
    RunNext(done, t, last);
  }

  lemma {:induction false} RunLine(ps: seq<Phrase>, n: nat)
    requires GoodLine(ps) && |ps| == n + 1
    ensures Scan([], Start).Run(Spell(ps), 0)
         == Scan(Meanings(ps[..n]), InWord(Meaning(ps[n]).kind, Meaning(ps[n]).text))
    decreases n
  {
    if n == 0 {
      RunOnly(ps[0]);
      FrontAndLast(ps, 0);
      assert Meanings(ps[..0]) == [];
    } else {
      var front := ps[..n];
      RunLine(front, n - 1);
      MeaningsSnoc(front, n - 1);
      RunMore(front, ps[n], Meanings(front[..n - 1]), Meaning(front[n - 1]));
      FrontAndLast(ps, n);
    }
  }

  /** The scanner reads a spelled line's meaning. */
  lemma ScansMeaning(ps: seq<Phrase>)
    requires GoodLine(ps)
    ensures ScanLine(Spell(ps)) == Some(Meanings(ps))
  {
    if ps == [] {
      assert Meanings(ps) == [];
    } else {
      RunLine(ps, |ps| - 1);
      MeaningsSnoc(ps, |ps| - 1);
    }
  }

  /** So does the parser, which takes the whole line. */
  lemma ReadsMeaning(ps: seq<Phrase>, line: seq<byte>)
    requires GoodLine(ps) && line == Spell(ps)
    ensures var es := ElementsFrom(line, 0);
            && LastEnd(es, 0) == |line|
            && (forall k :: 0 <= k < |es| ==> Sound(line, es[k]))
            && Tokens(line, es) == Meanings(ps)
  {
    ScansMeaning(ps);
    ParserIsScanner(line);
  }

  // ---- nothing else is accepted

  /** A good line, but that the last phrase may still lack its word. */
  ghost predicate Unfinished(ps: seq<Phrase>) {
    var n := |ps| - 1;
    && n >= 0 && GoodLine(ps[..n])
    && (if n == 0 then ps[n].gap == 0 else ps[n].gap > 0 || ps[n].operator.Some?)
    && GoodOperator(ps[n]) && GoodPieces(ps[n].pieces)
  }

  /** What a line read so far must look like: phrases, then blanks or an open quote. */
  ghost predicate Shape(mode: Mode, line: seq<byte>, ps: seq<Phrase>, n: nat, t: seq<byte>) {
    match mode
    case Start => ps == [] && n == 0 && line == []
    case Gap => ps != [] && GoodLine(ps) && n > 0 && line == Spell(ps) + Repeat(32, n)
    case Pending(_) =>
      Unfinished(ps) && ps[|ps| - 1].operator.Some? && ps[|ps| - 1].pieces == [] && line == Spell(ps)
    case InWord(_, _) => Unfinished(ps) && ps[|ps| - 1].pieces != [] && line == Spell(ps)
    case InQuote(_, _) => Unfinished(ps) && 39 !in t && line == Spell(ps) + ([39] + t)
    case Bad => true
  }

  function LastWith(ps: seq<Phrase>, p: Phrase): seq<Phrase>
    requires ps != []
  {
    ps[|ps| - 1 := p]
  }

  lemma SpellLast(ps: seq<Phrase>, p: Phrase)
    requires ps != []
    ensures LastWith(ps, p)[..|ps| - 1] == ps[..|ps| - 1]
    ensures Spell(LastWith(ps, p)) == Spell(ps[..|ps| - 1]) + (Repeat(32, p.gap) + SpellPhrase(p))
  {}

  /** One more piece of a phrase's word. */
  lemma PhraseMore(p: Phrase, x: Piece, q: Phrase)
    requires q == p.(pieces := p.pieces + [x])
    ensures SpellPhrase(q) == SpellPhrase(p) + SpellPiece(x)
  {
    assert q.pieces[..|p.pieces|] == p.pieces;
    var op := if p.operator.Some? then [p.operator.value] + Repeat(32, p.pad) else [];
    Joined(op, SpellPieces(p.pieces), SpellPiece(x));
  }

  lemma Joined(a: seq<byte>, b: seq<byte>, c: seq<byte>)
    ensures a + (b + c) == a + b + c
  {}

  /** One more piece of the last word. */
  lemma MorePieces(ps: seq<Phrase>, x: Piece) returns (longer: seq<Phrase>)
    requires Unfinished(ps) && GoodPiece(x)
    ensures Unfinished(longer) && longer[|longer| - 1].pieces != [] && Spell(longer) == Spell(ps) + SpellPiece(x)
  {
    var p := ps[|ps| - 1];
    var q := p.(pieces := p.pieces + [x]);
    longer := LastWith(ps, q);
    SpellLast(ps, q);
    assert GoodPieces(q.pieces);
    PhraseMore(p, x, q);
    Joined(Repeat(32, p.gap), SpellPhrase(p), SpellPiece(x));
    Joined(Spell(ps[..|ps| - 1]), Repeat(32, p.gap) + SpellPhrase(p), SpellPiece(x));
  }

  /** One more blank behind the last operator. */
  lemma MorePad(ps: seq<Phrase>) returns (longer: seq<Phrase>)
    requires Unfinished(ps) && ps[|ps| - 1].operator.Some? && ps[|ps| - 1].pieces == []
    ensures Unfinished(longer) && longer[|longer| - 1].operator.Some? && longer[|longer| - 1].pieces == []
    ensures Spell(longer) == Spell(ps) + [32]
  {
    var p := ps[|ps| - 1];
    var q := p.(pad := p.pad + 1);
    longer := LastWith(ps, q);
    SpellLast(ps, q);
    assert Repeat<byte>(32, p.pad + 1) == Repeat(32, p.pad) + [32];
    assert SpellPhrase(q) == [p.operator.value] + Repeat(32, p.pad) + [32] == SpellPhrase(p) + [32];
    Joined(Repeat(32, p.gap), SpellPhrase(p), [32]);
    Joined(Spell(ps[..|ps| - 1]), Repeat(32, p.gap) + SpellPhrase(p), [32]);
  }

  /** A new phrase without its word yet. */
  lemma NewPhrase(ps: seq<Phrase>, n: nat, op: Option<byte>) returns (longer: seq<Phrase>)
    requires GoodLine(ps) && (ps == [] ==> n == 0) && (ps != [] ==> n > 0 || op.Some?)
    requires op == None || op == Some(60) || op == Some(62)
    ensures Unfinished(longer) && longer[|longer| - 1].operator == op && longer[|longer| - 1].pieces == []
    ensures Spell(longer) == Spell(ps) + Repeat(32, n) + (if op.Some? then [op.value] else [])
  {
    var p := Phrase(n, op, 0, []);
    longer := ps + [p];
    assert longer[..|ps|] == ps;
    assert SpellPhrase(p) == if op.Some? then [op.value] else [];
  }

  lemma Finished(ps: seq<Phrase>)
    requires Unfinished(ps) && ps[|ps| - 1].pieces != []
    ensures GoodLine(ps)
  {}

  /** A byte where a word may begin, behind n blanks. */
  lemma BeginsWord(s: Scan, line: seq<byte>, c: byte, ps: seq<Phrase>, n: nat)
    returns (ps': seq<Phrase>, n': nat, t': seq<byte>)
    requires s.mode == (if ps == [] then Start else Gap)
    requires GoodLine(ps) && (ps == [] <==> n == 0) && line == Spell(ps) + Repeat(32, n)
    ensures Shape(s.Next(c).mode, line + [c], ps', n', t')
  {
    ps', n', t' := ps, n, [];
    ModeAfter(s, c);
    if ps != [] && c == 32 {
      n' := n + 1;
      BlankMore(Spell(ps), n);
    } else if c == 60 || c == 62 {
      ps' := NewPhrase(ps, n, Some(c));
    } else if c == 39 {
      ps' := NewPhrase(ps, n, None);
      QuoteOnly(Spell(ps), Repeat(32, n));
    } else if c !in [0, 10, 39, 32, 60, 62] {
      ps' := NewWord(ps, n, c);
    }
  }

  lemma ModeAfter(s: Scan, c: byte)
    requires s.mode.Start? || s.mode.Gap?
    ensures var m := s.Next(c).mode;
            if c == 60 || c == 62 then m.Pending? else if c == 39 then m.InQuote?
            else if c !in [0, 10, 39, 32, 60, 62] then m.InWord? else if c == 32 && s.mode.Gap? then m.Gap? else m.Bad?
  {}

  lemma NewWord(ps: seq<Phrase>, n: nat, c: byte) returns (longer: seq<Phrase>)
    requires GoodLine(ps) && (ps == [] <==> n == 0) && c !in [0, 10, 39, 32, 60, 62]
    ensures Unfinished(longer) && longer[|longer| - 1].pieces != [] && Spell(longer) == Spell(ps) + Repeat(32, n) + [c]
  {
    longer := NewPhrase(ps, n, None);
    longer := MorePieces(longer, Bare([c]));
    NothingBetween(Spell(ps) + Repeat(32, n), [c]);
  }

  lemma BlankMore(a: seq<byte>, n: nat)
    ensures a + Repeat(32, n) + [32] == a + Repeat(32, n + 1)
  {}

  lemma QuoteOnly(a: seq<byte>, b: seq<byte>)
    ensures a + b + [39] == a + b + [] + ([39] + [])
  {}

  lemma NothingBetween(a: seq<byte>, b: seq<byte>)
    ensures a + [] + b == a + b
  {}

  /** A byte behind an operator. */
  lemma BehindOperator(s: Scan, line: seq<byte>, c: byte, ps: seq<Phrase>)
    returns (ps': seq<Phrase>, n': nat, t': seq<byte>)
    requires s.mode.Pending? && Shape(s.mode, line, ps, 0, [])
    ensures Shape(s.Next(c).mode, line + [c], ps', n', t')
  {
    ps', n', t' := ps, 0, [];
    if c == 32 {
      ps' := MorePad(ps);
    } else if c == 39 {
      assert [39] + t' == [39];
    } else if c !in [0, 10, 39, 32, 60, 62] {
      ps' := MorePieces(ps, Bare([c]));
    }
  }

  /** A byte inside quotes. */
  lemma InsideQuotes(s: Scan, line: seq<byte>, c: byte, ps: seq<Phrase>, t: seq<byte>)
    returns (ps': seq<Phrase>, n': nat, t': seq<byte>)
    requires s.mode.InQuote? && Shape(s.mode, line, ps, 0, t)
    ensures Shape(s.Next(c).mode, line + [c], ps', n', t')
  {
    ps', n', t' := ps, 0, t + [c];
    if c == 39 {
      ps' := MorePieces(ps, InQuotes(t));
      Joined(Spell(ps), [39] + t, [39]);
    } else {
      Joined([39], t, [c]);
      Joined(Spell(ps), [39] + t, [c]);
    }
  }

  /** A byte inside or behind a word. */
  lemma InsideWord(s: Scan, line: seq<byte>, c: byte, ps: seq<Phrase>)
    returns (ps': seq<Phrase>, n': nat, t': seq<byte>)
    requires s.mode.InWord? && Shape(s.mode, line, ps, 0, [])
    ensures Shape(s.Next(c).mode, line + [c], ps', n', t')
  {
    ps', n', t' := ps, 1, [];
    Finished(ps);
    if c == 39 {
      assert [39] + t' == [39];
    } else if c == 32 {
      assert Repeat<byte>(32, 1) == [32];
    } else if c == 60 || c == 62 {
      ps' := NewPhrase(ps, 0, Some(c));
      assert Spell(ps) + Repeat(32, 0) == Spell(ps);
    } else if c !in [0, 10, 39, 32, 60, 62] {
      ps' := MorePieces(ps, Bare([c]));
    }
  }

  lemma NextShape(s: Scan, line: seq<byte>, c: byte, ps: seq<Phrase>, n: nat, t: seq<byte>)
    returns (ps': seq<Phrase>, n': nat, t': seq<byte>)
    requires Shape(s.mode, line, ps, n, t)
    ensures Shape(s.Next(c).mode, line + [c], ps', n', t')
  {
    ps', n', t' := ps, n, t;
    match s.mode
    case Bad =>
    case Start => ps', n', t' := BeginsWord(s, line, c, ps, n);
    case Gap => ps', n', t' := BeginsWord(s, line, c, ps, n);
    case Pending(_) => ps', n', t' := BehindOperator(s, line, c, ps);
    case InQuote(_, _) => ps', n', t' := InsideQuotes(s, line, c, ps, t);
    case InWord(_, _) => ps', n', t' := InsideWord(s, line, c, ps);
  }

  lemma {:induction false} LineShape(line: seq<byte>) returns (ps: seq<Phrase>, n: nat, t: seq<byte>)
    ensures Shape(Scan([], Start).Run(line, 0).mode, line, ps, n, t)
    decreases |line|
  {
    if line == [] {
      ps, n, t := [], 0, [];
    } else {
      var front, c := line[..|line| - 1], line[|line| - 1];
      assert line == front + [c];
      ps, n, t := LineShape(front);
      RunAppend(Scan([], Start), front, [c]);
      var s := Scan([], Start).Run(front, 0);
      assert s.Run([c], 0) == s.Next(c).Run([c], 1) == s.Next(c);
      ps, n, t := NextShape(s, front, c, ps, n, t);
    }
  }

  /** The shell's statements are exactly the spelled lines. */
  lemma AcceptsExactly(line: seq<byte>)
    ensures LastEnd(ElementsFrom(line, 0), 0) == |line| <==> exists ps :: GoodLine(ps) && Spell(ps) == line
  {
    ParserIsScanner(line);
    if ScanLine(line).Some? {
      var ps, n, t := LineShape(line);
      if ps != [] { Finished(ps); }
      assert GoodLine(ps) && Spell(ps) == line;
    }
    forall ps | GoodLine(ps) && Spell(ps) == line
      ensures ScanLine(line).Some?
    {
      ScansMeaning(ps);
    }
  }
}
