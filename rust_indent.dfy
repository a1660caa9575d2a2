/**
  * `IndentedWriter` of the Rust code generator: a writer that puts the
  * current indentation in front of every line it passes on, except blank
  * ones.  The wrapped writer is modelled as the byte sequence written to
  * it so far.
  */
module Indent {
  import opened Wire

  const NEWLINE: byte := 10
  const TAB: byte := 9
  const SPACE: byte := 32

  /** One level of indentation: a tab, or a number of spaces. */
  datatype IndentConfig = Tab | Space(n: nat)

  function Width(config: IndentConfig): nat
  {
    match config
    case Tab => 1
    case Space(n) => n
  }

  /** The bytes one `indent` adds. */
  function Level(config: IndentConfig): (r: seq<byte>)
    ensures |r| == Width(config)
    ensures forall i | 0 <= i < |r| :: r[i] == (if config.Tab? then TAB else SPACE)
  {
    match config
    case Tab => [TAB]
    case Space(n) => seq(n, _ => SPACE)
  }

  /** The indentation after one `unindent`: one level shorter, or empty. */
  function Unindented(indentation: seq<byte>, config: IndentConfig): (r: seq<byte>)
    ensures r == indentation[..if |indentation| >= Width(config) then |indentation| - Width(config) else 0]
  {
    match config
    case Tab => if |indentation| == 0 then indentation else indentation[..|indentation| - 1]
    case Space(n) => indentation[..if |indentation| >= n then |indentation| - n else 0]
  }

  /** `unindent` takes back what `indent` added. */
  lemma UnindentUndoesIndent(indentation: seq<byte>, config: IndentConfig)
    ensures Unindented(indentation + Level(config), config) == indentation
  {
    assert (indentation + Level(config))[..|indentation|] == indentation;
  }

  /** No newline inside `s`. */
  predicate Blankless(s: seq<byte>)
  {
    forall i | 0 <= i < |s| :: s[i] != NEWLINE
  }

  // ---------------------------------------------------------------------
  // What a write produces, byte by byte.
  // ---------------------------------------------------------------------

  /**
    * The bytes passed on for `buf` when the writer starts at a line
    * beginning or not: the indentation goes in front of each byte that
    * begins a line and is not itself a newline.
    */
  function Indented(indentation: seq<byte>, atLineStart: bool, buf: seq<byte>): seq<byte>
    decreases |buf|
  {
    if |buf| == 0 then []
    else if buf[0] == NEWLINE then [NEWLINE] + Indented(indentation, true, buf[1..])
    else (if atLineStart then indentation else []) + [buf[0]] + Indented(indentation, false, buf[1..])
  }

  /** Whether the writer is at a line beginning after `buf`. */
  function LineStartAfter(atLineStart: bool, buf: seq<byte>): bool
  {
    if |buf| == 0 then atLineStart else buf[|buf| - 1] == NEWLINE
  }

  /** One step of `Indented`: the first byte, with the indentation in
    * front when it begins a line and is not a newline. */
  lemma IndentedFirst(indentation: seq<byte>, atLineStart: bool, head: byte, tail: seq<byte>)
    ensures Indented(indentation, atLineStart, [head] + tail)
         == (if head != NEWLINE && atLineStart then indentation else []) + [head]
            + Indented(indentation, head == NEWLINE, tail)
  {
    assert ([head] + tail)[0] == head && ([head] + tail)[1..] == tail;
  }

  /** The line state after `x + y` is the one after `y`, started where `x` left off. */
  lemma LineStartAppend(atLineStart: bool, x: seq<byte>, y: seq<byte>)
    ensures LineStartAfter(atLineStart, x + y) == LineStartAfter(LineStartAfter(atLineStart, x), y)
  {
    if |y| == 0 {
      assert x + y == x;
    } else {
      assert (x + y)[|x + y| - 1] == y[|y| - 1];
    }
  }

  /** The line state after a byte and more is the one after the rest, started after that byte. */
  lemma LineStartCons(atLineStart: bool, head: byte, tail: seq<byte>)
    ensures LineStartAfter(atLineStart, [head] + tail) == LineStartAfter(head == NEWLINE, tail)
  {
    if |tail| > 0 {
      assert ([head] + tail)[|tail|] == tail[|tail| - 1];
    }
  }

  /** Writing `x` then `y` passes on what writing `x + y` does. */
  lemma {:induction false} IndentedAppend(indentation: seq<byte>, atLineStart: bool, x: seq<byte>, y: seq<byte>)
    ensures Indented(indentation, atLineStart, x + y)
         == Indented(indentation, atLineStart, x) + Indented(indentation, LineStartAfter(atLineStart, x), y)
    ensures LineStartAfter(atLineStart, x + y) == LineStartAfter(LineStartAfter(atLineStart, x), y)
    decreases |x|, 1
  {
    LineStartAppend(atLineStart, x, y);
    if |x| == 0 {
      assert x + y == y;
    } else {
      var head, tail := x[0], x[1..];
      assert x == [head] + tail && x + y == [head] + (tail + y);
      LineStartCons(atLineStart, head, tail);
      IndentedConsAppend(indentation, atLineStart, head, tail, y);
    }
  }

  /** `IndentedAppend` for an `x` given as its first byte and the rest. */
  lemma {:induction false} IndentedConsAppend(indentation: seq<byte>, atLineStart: bool, head: byte, tail: seq<byte>, y: seq<byte>)
    ensures Indented(indentation, atLineStart, [head] + (tail + y))
         == Indented(indentation, atLineStart, [head] + tail) + Indented(indentation, LineStartAfter(head == NEWLINE, tail), y)
    decreases |tail|, 2
  {
    var start := (if head != NEWLINE && atLineStart then indentation else []) + [head];
    IndentedFirst(indentation, atLineStart, head, tail);
    IndentedFirst(indentation, atLineStart, head, tail + y);
    IndentedAppend(indentation, head == NEWLINE, tail, y);
    var a, b := Indented(indentation, head == NEWLINE, tail), Indented(indentation, LineStartAfter(head == NEWLINE, tail), y);
    assert start + (a + b) == (start + a) + b;
  }

  /** Text without a newline gets the indentation once, in front, if it starts a line. */
  lemma {:induction false} IndentedText(indentation: seq<byte>, atLineStart: bool, text: seq<byte>)
    requires Blankless(text)
    ensures Indented(indentation, atLineStart, text)
         == (if atLineStart && |text| > 0 then indentation else []) + text
    decreases |text|
  {
    if |text| > 0 {
      var head, tail := text[0], text[1..];
      assert text == [head] + tail;
      assert Blankless(tail);
      IndentedFirst(indentation, atLineStart, head, tail);
      IndentedText(indentation, false, tail);
    }
  }

  /** A complete line gets the indentation exactly when it is not blank. */
  lemma LineIndented(indentation: seq<byte>, line: seq<byte>)
    requires Blankless(line)
    ensures Indented(indentation, true, line + [NEWLINE])
         == (if |line| > 0 then indentation else []) + line + [NEWLINE]
    ensures LineStartAfter(true, line + [NEWLINE])
  {
    IndentedAppend(indentation, true, line, [NEWLINE]);
    IndentedText(indentation, true, line);
    IndentedText(indentation, true, line);
  }

  // ---------------------------------------------------------------------
  // Taking the indentation out again.
  // ---------------------------------------------------------------------

  /**
    * The output with the inserted indentation removed: at a line beginning
    * that does not hold a newline, the next |indentation| bytes are dropped.
    */
  function Stripped(indentation: seq<byte>, atLineStart: bool, out: seq<byte>): seq<byte>
    decreases |out|, if atLineStart then 1 else 0
  {
    if |out| == 0 then []
    else if atLineStart && out[0] != NEWLINE then
      if |out| < |indentation| then []
      else Stripped(indentation, false, out[|indentation|..])
    else if out[0] == NEWLINE then [NEWLINE] + Stripped(indentation, true, out[1..])
    else [out[0]] + Stripped(indentation, false, out[1..])
  }

  /** Deleting the inserted indentation gives back exactly the bytes written. */
  lemma {:induction false} StrippedIndented(indentation: seq<byte>, atLineStart: bool, buf: seq<byte>)
    requires Blankless(indentation)
    ensures Stripped(indentation, atLineStart, Indented(indentation, atLineStart, buf)) == buf
    decreases |buf|
  {
    if |buf| > 0 {
      var head, tail := buf[0], buf[1..];
      assert buf == [head] + tail;
      IndentedFirst(indentation, atLineStart, head, tail);
      if head == NEWLINE {
        StrippedIndented(indentation, true, tail);
        StrippedNewline(indentation, atLineStart, Indented(indentation, true, tail));
      } else {
        StrippedIndented(indentation, false, tail);
        var rest := [head] + Indented(indentation, false, tail);
        if atLineStart {
          StrippedPrefix(indentation, rest);
        } else {
          assert rest[1..] == Indented(indentation, false, tail);
        }
      }
    }
  }

  lemma StrippedNewline(indentation: seq<byte>, atLineStart: bool, out: seq<byte>)
    ensures Stripped(indentation, atLineStart, [NEWLINE] + out) == [NEWLINE] + Stripped(indentation, true, out)
  {
    assert ([NEWLINE] + out)[1..] == out;
  }

  lemma StrippedPrefix(indentation: seq<byte>, rest: seq<byte>)
    requires Blankless(indentation) && |rest| > 0 && rest[0] != NEWLINE
    ensures Stripped(indentation, true, indentation + rest) == Stripped(indentation, false, rest)
  {
    var out := indentation + rest;
    assert out[0] != NEWLINE;
    assert out[|indentation|..] == rest;
  }

  // ---------------------------------------------------------------------
  // The writer.
  // ---------------------------------------------------------------------

  /** The position of the first newline in `buf`, or |buf| when there is none. */
  function FirstNewline(buf: seq<byte>): (i: nat)
    ensures i <= |buf| && Blankless(buf[..i])
    ensures i < |buf| ==> buf[i] == NEWLINE
  {
    if |buf| == 0 then 0
    else if buf[0] == NEWLINE then 0
    else
      var j := FirstNewline(buf[1..]);
      assert buf[1..][..j] == buf[1..j + 1];
      1 + j
  }

  /** One pass of the writing loop: the text before the first newline, then that newline. */
  lemma Chunk(indentation: seq<byte>, atLineStart: bool, before: seq<byte>, hasNewline: bool, after: seq<byte>)
    requires Blankless(before) && (!hasNewline ==> |after| == 0)
    ensures var start := if atLineStart && |before| > 0 then indentation else [];
            var newline := if hasNewline then [NEWLINE] else [];
            var next := if hasNewline then true else if atLineStart && |before| > 0 then false else atLineStart;
            Indented(indentation, atLineStart, before + newline + after)
              == start + before + newline + Indented(indentation, next, after)
            && LineStartAfter(atLineStart, before + newline + after) == LineStartAfter(next, after)
  {
    var newline: seq<byte> := if hasNewline then [NEWLINE] else [];
    IndentedText(indentation, atLineStart, before);
    IndentedAppend(indentation, atLineStart, before, newline + after);
    IndentedAppend(indentation, LineStartAfter(atLineStart, before), newline, after);
    assert before + newline + after == before + (newline + after);
    if |before| > 0 {
      assert before[|before| - 1] != NEWLINE;
    }
  }

  lemma Regroup(o: seq<byte>, a: seq<byte>, b: seq<byte>, c: seq<byte>, d: seq<byte>)
    ensures o + a + b + c + d == o + (a + b + c + d)
  {
  }

  class IndentedWriter {
    var out: seq<byte>
    var indentation: seq<byte>
    const config: IndentConfig
    var atBeginningOfLine: bool

    /** The indentation never holds a newline. */
    predicate Valid()
      reads this
    {
      Blankless(indentation)
    }

    constructor(out: seq<byte>, config: IndentConfig)
      ensures Valid()
      ensures this.out == out && indentation == [] && this.config == config && atBeginningOfLine
    {
      this.out := out;
      indentation := [];
      this.config := config;
      atBeginningOfLine := true;
    }

    method Indent()
      requires Valid()
      modifies this
      ensures Valid()
      ensures indentation == old(indentation) + Level(config)
      ensures out == old(out) && atBeginningOfLine == old(atBeginningOfLine)
    {
      match config
      case Tab =>
        indentation := indentation + [TAB];
      case Space(n) =>
        indentation := indentation + seq(n, _ => SPACE);
    }

    method Unindent()
      requires Valid()
      modifies this
      ensures Valid()
      ensures indentation == Unindented(old(indentation), config)
      ensures out == old(out) && atBeginningOfLine == old(atBeginningOfLine)
    {
      match config
      case Tab =>
        if |indentation| > 0 {
          indentation := indentation[..|indentation| - 1];
        }
      case Space(n) =>
        indentation := indentation[..if |indentation| >= n then |indentation| - n else 0];
    }

    /** Passes `buf` on with indentation inserted; reports |buf| bytes written. */
    method Write(buf: seq<byte>) returns (written: nat)
      requires Valid()
      modifies this
      ensures Valid() && indentation == old(indentation)
      ensures written == |buf|
      ensures out == old(out) + Indented(indentation, old(atBeginningOfLine), buf)
      ensures atBeginningOfLine == LineStartAfter(old(atBeginningOfLine), buf)
    {
      written := 0;
      var rest := buf;
      while |rest| > 0
        invariant indentation == old(indentation)
        invariant out + Indented(indentation, atBeginningOfLine, rest)
               == old(out) + Indented(indentation, old(atBeginningOfLine), buf)
        invariant LineStartAfter(atBeginningOfLine, rest) == LineStartAfter(old(atBeginningOfLine), buf)
        invariant written + |rest| == |buf|
        decreases |rest|
      {
        var idx := FirstNewline(rest);
        var before, hasNewline, after;
        if idx < |rest| {
          before, hasNewline, after := rest[..idx], true, rest[idx + 1..];
          assert rest == before + [NEWLINE] + after;
        } else {
          before, hasNewline, after := rest, false, [];
          assert rest == before + [] + after;
        }
        Chunk(indentation, atBeginningOfLine, before, hasNewline, after);
        ghost var out0 := out;
        ghost var start := if atBeginningOfLine && |before| > 0 then indentation else [];
        ghost var newline := if hasNewline then [NEWLINE] else [];

        if atBeginningOfLine && |before| > 0 {
          out := out + indentation;
          atBeginningOfLine := false;
        }
        out := out + before;
        written := written + |before|;
        if hasNewline {
          out := out + [NEWLINE];
          written := written + 1;
          atBeginningOfLine := true;
        }
        assert out == out0 + start + before + newline;
        Regroup(out0, start, before, newline, Indented(indentation, atBeginningOfLine, after));
        rest := after;
      }
    }
  }

  /** `writeln!(out, "{}", line)`: the line, then a newline. */
  method WriteLine(w: IndentedWriter, line: seq<byte>)
    requires w.Valid() && w.atBeginningOfLine && Blankless(line)
    modifies w
    ensures w.Valid() && w.atBeginningOfLine && w.indentation == old(w.indentation)
    ensures w.out == old(w.out) + (if |line| > 0 then w.indentation else []) + line + [NEWLINE]
  {
    LineIndented(w.indentation, line);
    var _ := w.Write(line + [NEWLINE]);
  }

  const FOO: seq<byte> := [102, 111, 111]
  const BAR: seq<byte> := [98, 97, 114]
  const FOOBAR: seq<byte> := [102, 111, 111, 98, 97, 114]

  /** One more level of two spaces, then a line, a blank line and the line again. */
  method Stanza(w: IndentedWriter, line: seq<byte>)
    requires w.Valid() && w.atBeginningOfLine && w.config == Space(2)
    requires Blankless(line) && |line| > 0
    modifies w
    ensures w.Valid() && w.atBeginningOfLine && w.indentation == old(w.indentation) + [SPACE, SPACE]
    ensures w.out == old(w.out) + w.indentation + line + [NEWLINE] + [NEWLINE] + w.indentation + line + [NEWLINE]
  {
    w.Indent();
    assert w.indentation == old(w.indentation) + [SPACE, SPACE];
    ghost var o := w.out;
    WriteLine(w, line);
    WriteLine(w, []);
    assert w.out == o + w.indentation + line + [NEWLINE] + [NEWLINE];
    WriteLine(w, line);
  }

  /**
    * Two levels of two spaces, a blank line at each level, and back:
    * "foo", "  bar", "", "  bar", "    foobar", "", "    foobar", "foo",
    * each followed by a newline.
    */
  method BasicExample() returns (buffer: seq<byte>)
    ensures buffer == FOO + [NEWLINE]
                    + [SPACE, SPACE] + BAR + [NEWLINE] + [NEWLINE] + [SPACE, SPACE] + BAR + [NEWLINE]
                    + [SPACE, SPACE, SPACE, SPACE] + FOOBAR + [NEWLINE] + [NEWLINE]
                    + [SPACE, SPACE, SPACE, SPACE] + FOOBAR + [NEWLINE]
                    + FOO + [NEWLINE]
  {
    var w := new IndentedWriter([], Space(2));
    WriteLine(w, FOO);
    assert w.out == FOO + [NEWLINE];
    Stanza(w, BAR);
    assert w.indentation == [SPACE, SPACE];
    ghost var first := w.out;
    Stanza(w, FOOBAR);
    assert w.indentation == [SPACE, SPACE, SPACE, SPACE];
    ghost var second := w.out;
    w.Unindent();
    w.Unindent();
    assert w.indentation == [];
    WriteLine(w, FOO);
    buffer := w.out;
    assert buffer == second + FOO + [NEWLINE];
  }
}
