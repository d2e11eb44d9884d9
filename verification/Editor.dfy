/** The shell's line editor: a shifting array that behaves as the text left and right of a
    cursor, and the bytes it sends so that the terminal shows that line. */
module Editor {
  import opened Bytes
  import Screen

  const CAPACITY: nat := 400 // KEYBOARD_COMMAND_BUFFER_LENGTH
  const PROMPT: seq<byte> := [35, 32]
  const CLEAR: seq<byte> := [Screen.CR, Screen.ESC, 91, 75] // carriage return, ESC [ K
  const STEP_LEFT: seq<byte> := [Screen.ESC, 91, 68] // ESC [ D

  datatype Key = Char(c: byte) | Erase | Up | Down | Right | Left

  /** What the user edits: the text on both sides of the cursor, and the line before it. */
  datatype Session = Session(left: seq<byte>, right: seq<byte>, history: seq<byte>)
  {
    function Text(): seq<byte> { left + right }

    function After(key: Key): Session {
      match key
      case Char(c) => this.(left := left + [c])
      case Erase => if left == [] then this else this.(left := left[..|left| - 1])
      case Up => Session(history, [], Text())
      case Down => this
      case Right => if right == [] then this else this.(left := left + [right[0]], right := right[1..])
      case Left =>
        if left == [] then this
        else this.(left := left[..|left| - 1], right := [left[|left| - 1]] + right)
    }

    /** The bytes that rewrite_command_line writes for this line. */
    function Rewrite(): seq<byte> { CLEAR + PROMPT + Text() + StepsLeft(|right|) }

    /** The bytes written after a key. */
    function Output(key: Key): seq<byte> {
      match key
      case Char(c) => if right == [] then [c] else After(key).Rewrite()
      case Erase => After(key).Rewrite()
      case Up => After(key).Rewrite()
      case Down => []
      case Right => if right == [] then [] else After(key).Rewrite()
      case Left => if left == [] then [] else After(key).Rewrite()
    }

    function Run(keys: seq<Key>): Session {
      if keys == [] then this else Run(keys[..|keys| - 1]).After(keys[|keys| - 1])
    }

    function RunOutput(keys: seq<Key>): seq<byte> {
      if keys == [] then []
      else RunOutput(keys[..|keys| - 1]) + Run(keys[..|keys| - 1]).Output(keys[|keys| - 1])
    }
  }

  function StepsLeft(n: nat): seq<byte> {
    if n == 0 then [] else StepsLeft(n - 1) + STEP_LEFT
  }

  /** What every key does to the line, to the cursor (the number of characters before it) and
      to the line before it. */
  lemma KeyEffects(s: Session, c: byte)
    ensures var (t, at) := (s.After(Char(c)), |s.left|);
            t.Text() == s.Text()[..at] + [c] + s.Text()[at..] && |t.left| == at + 1 && t.history == s.history
    ensures var (t, at) := (s.After(Erase), |s.left|);
            if at == 0 then t == s
            else t.Text() == s.Text()[..at - 1] + s.Text()[at..] && |t.left| == at - 1 && t.history == s.history
    ensures var t := s.After(Left);
            t.Text() == s.Text() && |t.left| == Max(|s.left| - 1, 0) && t.history == s.history
    ensures var t := s.After(Right);
            t.Text() == s.Text() && |t.left| == Min(|s.left| + 1, |s.Text()|) && t.history == s.history
    ensures var t := s.After(Up); t.Text() == s.history && t.right == [] && t.history == s.Text()
    ensures s.After(Down) == s
  {
    var n := |s.left|;
    assert s.Text()[..n] == s.left && s.Text()[n..] == s.right;
    assert s.left + [c] + s.right == s.left + ([c] + s.right);
    if n > 0 {
      assert s.Text()[..n - 1] == s.left[..n - 1] && s.left[..n - 1] + [s.left[n - 1]] == s.left;
      assert s.left[..n - 1] + ([s.left[n - 1]] + s.right) == s.left + s.right;
    }
    if s.right != [] {
      assert [s.right[0]] + s.right[1..] == s.right;
      assert s.left + [s.right[0]] + s.right[1..] == s.left + s.right;
    }
  }

  /** Arrow up right after Enter, which leaves the line handed over as the history, shows that
      line again, and arrow up once more the empty one. */
  lemma EnterThenUp(line: seq<byte>)
    ensures var s := Session([], [], line);
            s.After(Up) == Session(line, [], []) && s.After(Up).Text() == line && s.After(Up).After(Up).Text() == []
  {
    KeyEffects(Session([], [], line), 0);
  }

  lemma Swapped(b: seq<byte>, p: seq<byte>, length: nat, previousLength: nat)
    requires length <= |b| && previousLength <= |p|
    ensures forall at :: 0 <= at <= length ==> b[..at] + b[at..length] == b[..length]
    ensures p[..previousLength] + p[previousLength..previousLength] == p[..previousLength]
  {}

  /** The cursor between at and at + 1 of the first length bytes. */
  lemma Moved(b: seq<byte>, at: nat, length: nat)
    requires at < length <= |b|
    ensures b[..at + 1] == b[..at] + [b[at]] && b[..at + 1][..at] == b[..at]
    ensures b[at..length] == [b[at]] + b[at + 1..length] && b[at..length][1..] == b[at + 1..length]
  {}

  lemma Inserted(b: seq<byte>, b': seq<byte>, at: nat, length: nat, c: byte)
    requires at <= length < |b| == |b'| && b'[at] == c
    requires forall j {:trigger b'[j]} :: 0 <= j < at ==> b'[j] == b[j]
    requires forall j {:trigger b'[j]} :: at < j <= length ==> b'[j] == b[j - 1]
    ensures b'[..at + 1] == b[..at] + [c] && b'[at + 1..length + 1] == b[at..length]
  {}

  /** memcpy of a whole buffer. */
  method Copy(dest: array<byte>, src: array<byte>)
    requires dest != src && dest.Length == CAPACITY && src.Length == CAPACITY
    modifies dest
    ensures dest[..] == src[..]
  {
    MemCpy(dest, 0, src, 0, CAPACITY);
    assert src[0..CAPACITY] == src[..];
  }

  class LineEditor {
    const buffer: array<byte>
    const previous: array<byte>
    var length: nat
    var cursorEndOffset: nat
    var previousLength: nat

    ghost predicate Valid()
      reads this
    {
      && buffer.Length == CAPACITY && previous.Length == CAPACITY && buffer != previous
      && length <= CAPACITY && previousLength <= CAPACITY && cursorEndOffset <= length
    }

    ghost function Abs(): Session
      requires Valid()
      reads this, buffer, previous
    {
      var at := length - cursorEndOffset;
      Session(buffer[..at], buffer[at..length], previous[..previousLength])
    }

    constructor ()
      ensures Valid() && fresh(buffer) && fresh(previous) && Abs() == Session([], [], [])
    {
      buffer := new byte[CAPACITY](_ => 0);
      previous := new byte[CAPACITY](_ => 0);
      length, cursorEndOffset, previousLength := 0, 0, 0;
    }

    /** rewrite_command_line, returning what it writes. */
    method Rewrite() returns (out: seq<byte>)
      requires Valid()
      ensures out == Abs().Rewrite()
    {
      out := CLEAR + PROMPT + buffer[..length];
      ghost var front := out;
      for i := 0 to cursorEndOffset
        invariant out == front + StepsLeft(i)
      {
        out := out + STEP_LEFT;
      }
      assert Abs().Text() == buffer[..length];
    }

    /** One pass of the editing loop for a key other than Enter; a line that is full takes
        no more characters. */
    method Press(key: Key) returns (out: seq<byte>)
      requires Valid() && (key.Char? ==> length < 400)
      modifies this, buffer, previous
      ensures Valid() && Abs() == old(Abs()).After(key) && out == old(Abs()).Output(key)
    {
      out := [];
      match key
      case Char(c) =>
        if cursorEndOffset > 0 {
          Insert(c);
          out := Rewrite();
        } else {
          Append(c);
          out := [c];
        }
      case Erase =>
        EraseLeft();
        out := Rewrite();
      case Up =>
        Swap();
        out := Rewrite();
      case Down =>
      case Right =>
        if cursorEndOffset > 0 {
          MoveRight();
          out := Rewrite();
        }
      case Left =>
        if cursorEndOffset < length {
          MoveLeft();
          out := Rewrite();
        }
    }

    method Append(c: byte)
      requires Valid() && length < CAPACITY && cursorEndOffset == 0
      modifies this`length, buffer
      ensures Valid() && Abs() == old(Abs()).After(Char(c))
    {
      buffer[length] := c;
      length := length + 1;
    }

    method MoveRight()
      requires Valid() && cursorEndOffset > 0
      modifies this`cursorEndOffset
      ensures Valid() && Abs() == old(Abs()).After(Right)
    {
      Moved(buffer[..], length - cursorEndOffset, length);
      cursorEndOffset := cursorEndOffset - 1;
    }

    method MoveLeft()
      requires Valid() && cursorEndOffset < length
      modifies this`cursorEndOffset
      ensures Valid() && Abs() == old(Abs()).After(Left)
    {
      Moved(buffer[..], length - cursorEndOffset - 1, length);
      cursorEndOffset := cursorEndOffset + 1;
    }

    /** Everything right of the cursor moves one place right, from the end. */
    method Insert(c: byte)
      requires Valid() && length < CAPACITY && cursorEndOffset > 0
      modifies this`length, buffer
      ensures Valid() && Abs() == old(Abs()).After(Char(c))
    {
      ghost var b := buffer[..];
      length := length + 1;
      for i := 0 to cursorEndOffset
        invariant length == old(length) + 1
        invariant forall j {:trigger buffer[j]} :: 0 <= j < length - i ==> buffer[j] == b[j]
        invariant forall j {:trigger buffer[j]} :: length - i <= j < length ==> buffer[j] == b[j - 1]
      {
        buffer[length - i - 1] := buffer[length - i - 2];
      }
      var at := length - cursorEndOffset - 1;
      buffer[at] := c;
      Inserted(b, buffer[..], at, length - 1, c);
      assert buffer[..at + 1] == buffer[..][..at + 1] && buffer[at + 1..length] == buffer[..][at + 1..length];
      assert b[..at] == old(buffer[..at]) && b[at..length - 1] == old(buffer[at..length]);
    }

    /** Everything right of the cursor moves one place left, over the erased character. */
    method EraseLeft()
      requires Valid()
      modifies this`length, buffer
      ensures Valid() && Abs() == old(Abs()).After(Erase)
    {
      ghost var b := buffer[..];
      if length > cursorEndOffset {
        length := length - 1;
        var from := length - cursorEndOffset;
        for i := from to length
          invariant length == old(length) - 1
          invariant forall j :: 0 <= j < from || i <= j < CAPACITY ==> buffer[j] == b[j]
          invariant forall j :: from <= j < i ==> buffer[j] == b[j + 1]
        {
          buffer[i] := buffer[i + 1];
        }
      }
    }

    /** Arrow up: the line and the one before it change places, cursor at the end. */
    method Swap()
      requires Valid()
      modifies this, buffer, previous
      ensures Valid() && Abs() == old(Abs()).After(Up)
      ensures buffer[..length] == old(previous[..previousLength]) && previous[..previousLength] == old(buffer[..length])
      ensures cursorEndOffset == 0
    {
      cursorEndOffset := 0;
      ghost var b, p := buffer[..], previous[..];
      var tmpLength := length;
      var tmp := new byte[CAPACITY];
      Copy(tmp, buffer);
      length := previousLength;
      Copy(buffer, previous);
      previousLength := tmpLength;
      Copy(previous, tmp);
      assert buffer[..] == p && previous[..] == b;
      Swapped(b, p, tmpLength, length);
    }

    /** Enter: the line is handed over for execution and becomes the history; the cursor
        offset is not reset, so the editor is well formed afterwards exactly when the cursor
        was at the end of the line. */
    method Enter() returns (line: seq<byte>)
      requires Valid()
      modifies this, buffer, previous
      ensures line == old(Abs().Text())
      ensures Valid() <==> old(Abs()).right == []
      ensures Valid() ==> Abs() == Session([], [], line)
    {
      Copy(previous, buffer);
      previousLength := length;
      line := buffer[..length];
      length := 0;
      Clear();
    }

    method Clear()
      modifies buffer
      ensures forall i :: 0 <= i < buffer.Length ==> buffer[i] == 0
    {
      for i := 0 to buffer.Length
        invariant forall j :: 0 <= j < i ==> buffer[j] == 0
      {
        buffer[i] := 0;
      }
    }
  }
}
