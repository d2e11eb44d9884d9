/** The shell's recursive-descent parser, proved against a character-by-character reading
    of the line with quotes removed. */
module ShellParser {
  import opened Bytes
  import opened Options

  const BLANK: byte := 32
  const QUOTE: byte := 39
  const LESS: byte := 60
  const GREATER: byte := 62
  const NEWLINE: byte := 10

  /** is_ordinary_character */
  predicate Ordinary(c: byte) {
    c != 0 && c != NEWLINE && c != QUOTE && c != BLANK && c != LESS && c != GREATER
  }

  // ---- the parse tree, as index ranges of the line

  datatype Fragment = Fragment(quoted: bool, start: nat, end: nat)
  {
    predicate In(line: seq<byte>) { (if quoted then start + 2 else start + 1) <= end <= |line| }

    /** The fragment without its quotes. */
    function Content(line: seq<byte>): seq<byte>
      requires In(line)
    {
      if quoted then line[start + 1..end - 1] else line[start..end]
    }
  }

  datatype Word = Word(start: nat, end: nat, fragments: seq<Fragment>)

  /** redirect | word */
  datatype Element = Element(start: nat, end: nat, operator: Option<byte>, word: Word)

  datatype Statement = Statement(start: nat, end: nat, elements: seq<Element>)

  // ---- the grammar

  function SkipBlanks(line: seq<byte>, i: nat): (j: nat)
    requires i <= |line|
    ensures i <= j <= |line| && (j < |line| ==> line[j] != BLANK)
    decreases |line| - i
  {
    if i < |line| && line[i] == BLANK then SkipBlanks(line, i + 1) else i
  }

  function OrdinaryEnd(line: seq<byte>, i: nat): (j: nat)
    requires i <= |line|
    ensures i <= j <= |line| && (j < |line| ==> !Ordinary(line[j]))
    decreases |line| - i
  {
    if i < |line| && Ordinary(line[i]) then OrdinaryEnd(line, i + 1) else i
  }

  function ClosingQuote(line: seq<byte>, i: nat): (j: Option<nat>)
    requires i <= |line|
    ensures j.Some? ==> i <= j.value < |line| && line[j.value] == QUOTE
    decreases |line| - i
  {
    if i == |line| then None else if line[i] == QUOTE then Some(i) else ClosingQuote(line, i + 1)
  }

  function FragmentAt(line: seq<byte>, i: nat): (f: Option<Fragment>)
    requires i <= |line|
    ensures f.Some? ==> f.value.start == i < f.value.end && f.value.In(line)
  {
    if i == |line| then None
    else if line[i] == QUOTE then
      var close := ClosingQuote(line, i + 1);
      if close.Some? then Some(Fragment(true, i, close.value + 1)) else None
    else if Ordinary(line[i]) then Some(Fragment(false, i, OrdinaryEnd(line, i + 1)))
    else None
  }

  function FragmentsFrom(line: seq<byte>, i: nat): (fs: seq<Fragment>)
    requires i <= |line|
    ensures forall k :: 0 <= k < |fs| ==> fs[k].In(line) && i < fs[k].end
    decreases |line| - i
  {
    var f := FragmentAt(line, i);
    if f.None? then [] else [f.value] + FragmentsFrom(line, f.value.end)
  }

  function WordAt(line: seq<byte>, i: nat): (w: Option<Word>)
    requires i <= |line|
    ensures w.Some? ==> w.value.start == i < w.value.end <= |line|
  {
    var fs := FragmentsFrom(line, i);
    if fs == [] then None else Some(Word(i, fs[|fs| - 1].end, fs))
  }

  predicate IsOperator(c: byte) { c == LESS || c == GREATER }

  function ElementAt(line: seq<byte>, i: nat): (e: Option<Element>)
    requires i <= |line|
    ensures e.Some? ==> e.value.start == i < e.value.end <= |line|
  {
    if i < |line| && IsOperator(line[i]) then
      var w := WordAt(line, SkipBlanks(line, i + 1));
      if w.Some? then Some(Element(i, w.value.end, Some(line[i]), w.value)) else None
    else
      var w := WordAt(line, i);
      if w.Some? then Some(Element(i, w.value.end, None, w.value)) else None
  }

  function ElementsFrom(line: seq<byte>, i: nat): (es: seq<Element>)
    requires i <= |line|
    ensures forall k :: 0 <= k < |es| ==> i < es[k].end <= |line|
    decreases |line| - i
  {
    var e := ElementAt(line, i);
    if e.None? then [] else [e.value] + ElementsFrom(line, SkipBlanks(line, e.value.end))
  }

  function LastEnd(es: seq<Element>, start: nat): nat {
    if es == [] then start else es[|es| - 1].end
  }

  // ---- the parsers

  /** parse_zms and parse_oms: where the run of blanks ends. */
  method ParseBlanks(line: seq<byte>, start: nat) returns (end: nat)
    requires start <= |line|
    ensures end == SkipBlanks(line, start)
  {
    end := start;
    while end < |line| && line[end] == BLANK
      invariant start <= end <= |line| && SkipBlanks(line, end) == SkipBlanks(line, start)
    {
      end := end + 1;
    }
  }

  method ParseUnquoted(line: seq<byte>, start: nat) returns (pair: Option<Fragment>)
    requires start <= |line|
    ensures pair == if start < |line| && Ordinary(line[start])
                    then Some(Fragment(false, start, OrdinaryEnd(line, start))) else None
  {
    if start == |line| || !Ordinary(line[start]) {
      return None;
    }
    var cur := start + 1;
    while cur < |line| && Ordinary(line[cur])
      invariant start < cur <= |line| && OrdinaryEnd(line, cur) == OrdinaryEnd(line, start)
    {
      cur := cur + 1;
    }
    return Some(Fragment(false, start, cur));
  }

  method ParseQuoted(line: seq<byte>, start: nat) returns (pair: Option<Fragment>)
    requires start <= |line|
    ensures pair == if start < |line| && line[start] == QUOTE then FragmentAt(line, start) else None
  {
    if start == |line| || line[start] != QUOTE {
      return None;
    }
    var cur := start + 1;
    while true
      invariant start < cur <= |line| && ClosingQuote(line, cur) == ClosingQuote(line, start + 1)
      decreases |line| - cur
    {
      if cur >= |line| {
        return None;
      }
      if line[cur] == QUOTE {
        break;
      }
      cur := cur + 1;
    }
    return Some(Fragment(true, start, cur + 1));
  }

  method ParseFragment(line: seq<byte>, start: nat) returns (pair: Option<Fragment>)
    requires start <= |line|
    ensures pair == FragmentAt(line, start)
  {
    pair := ParseQuoted(line, start);
    if pair.None? {
      pair := ParseUnquoted(line, start);
    }
  }

  lemma NextFragment(line: seq<byte>, before: seq<Fragment>, i: nat, f: Fragment)
    requires i <= |line| && FragmentAt(line, i) == Some(f)
    ensures i < f.end <= |line| && (before + [f])[|before|].end == f.end
    ensures before + FragmentsFrom(line, i) == (before + [f]) + FragmentsFrom(line, f.end)
  {}

  method ParseWord(line: seq<byte>, start: nat) returns (pair: Option<Word>)
    requires start <= |line|
    ensures pair == WordAt(line, start)
  {
    var fragment := ParseFragment(line, start);
    if fragment.None? {
      return None;
    }
    var cur := fragment.value.end;
    var fragments := [fragment.value];
    NextFragment(line, [], start, fragment.value);
    assert [] + FragmentsFrom(line, start) == FragmentsFrom(line, start);
    fragment := ParseFragment(line, cur);
    while fragment.Some?
      invariant start < cur <= |line| && fragment == FragmentAt(line, cur)
      invariant |fragments| > 0 && fragments[|fragments| - 1].end == cur
      invariant fragments + FragmentsFrom(line, cur) == FragmentsFrom(line, start)
      decreases |line| - cur
    {
      NextFragment(line, fragments, cur, fragment.value);
      fragments := fragments + [fragment.value];
      cur := fragment.value.end;
      fragment := ParseFragment(line, cur);
    }
    assert fragments == FragmentsFrom(line, start);
    return Some(Word(start, cur, fragments));
  }

  method ParseRedirect(line: seq<byte>, start: nat) returns (pair: Option<Element>)
    requires start <= |line|
    ensures pair == if start < |line| && IsOperator(line[start]) then ElementAt(line, start) else None
  {
    if start == |line| || (line[start] != LESS && line[start] != GREATER) {
      return None;
    }
    var cur := ParseBlanks(line, start + 1);
    var word := ParseWord(line, cur);
    if word.None? {
      return None;
    }
    return Some(Element(start, word.value.end, Some(line[start]), word.value));
  }

  method ParseElement(line: seq<byte>, start: nat) returns (pair: Option<Element>)
    requires start <= |line|
    ensures pair == ElementAt(line, start)
  {
    pair := ParseRedirect(line, start);
    if pair.Some? {
      return;
    }
    var word := ParseWord(line, start);
    if word.Some? {
      pair := Some(Element(start, word.value.end, None, word.value));
    }
  }

  lemma NextElement(line: seq<byte>, before: seq<Element>, i: nat, e: Element)
    requires i <= |line| && ElementAt(line, i) == Some(e)
    ensures i < e.end <= |line| && LastEnd(before + [e], 0) == e.end
    ensures before + ElementsFrom(line, i) == (before + [e]) + ElementsFrom(line, SkipBlanks(line, e.end))
  {}

  method ParseStatement(line: seq<byte>) returns (pair: Statement)
    ensures pair.elements == ElementsFrom(line, 0) && pair.start == 0 && pair.end == LastEnd(pair.elements, 0)
  {
    var cur: nat, end: nat, elements: seq<Element> := 0, 0, [];
    while true
      invariant cur <= |line| && end <= |line| && end == LastEnd(elements, 0)
      invariant elements + ElementsFrom(line, cur) == ElementsFrom(line, 0)
      decreases |line| - cur
    {
      var element := ParseElement(line, cur);
      if element.None? {
        break;
      }
      NextElement(line, elements, cur, element.value);
      cur := element.value.end;
      elements := elements + [element.value];
      end := cur;
      cur := ParseBlanks(line, cur);
    }
    return Statement(0, end, elements);
  }
}
