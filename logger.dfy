/**
 * Logger.Log: lays a message out as "[timestamp-L] first line" followed by
 * the later non-blank lines, trimmed and indented under the first, then
 * hands it to the Message handlers and to WriteMessage, in that order.
 * DateTime.Now.ToString(TimestampFormat) and string.Format(message, args)
 * come in already formatted.
 */
module Logging {
  import opened Wrappers
  import opened Text

  datatype LogLevel = DEBUG | INFO | ERROR

  /** Enum.GetName(typeof(LogLevel), level). */
  function LevelName(level: LogLevel): string
  {
    match level
    case DEBUG => "DEBUG"
    case INFO => "INFO"
    case ERROR => "ERROR"
  }

  datatype LogEventArgs = LogEventArgs(level: LogLevel, message: string)

  /** What a Log call does with its event, in order. */
  datatype LogCall = Handled(e: LogEventArgs) | Written(e: LogEventArgs)

  /** Environment.NewLine on Windows. */
  const NewLine: string := "\r\n"

  /** The characters Log splits on: those of Environment.NewLine, each on its own. */
  const LineBreaks: set<char> := {'\r', '\n'}

  /** `string.Format("[{0}-{1}] ", timestamp, first letter of the level name)`. */
  function Prefix(timestamp: string, level: LogLevel): string
  {
    "[" + timestamp + "-" + [LevelName(level)[0]] + "] "
  }

  /** `Regex.Replace(data, "[^\\s]", " ")`: every character that is not white space becomes a space. */
  function Indent(data: string): (r: string)
    ensures |r| == |data|
  {
    seq(|data|, i requires 0 <= i < |data| => if IsWhiteSpace(data[i]) then data[i] else ' ')
  }

  /** What one later line adds: nothing when it trims to blank, else a new line, the indent and the trimmed line. */
  function LaterLine(line: string, indent: string): string
  {
    var t := Trim(line);
    if IsBlank(t) then "" else NewLine + indent + t
  }

  /** The later lines laid out one after the other. */
  function LaterLines(lines: seq<string>, indent: string): string
  {
    if lines == [] then "" else LaterLines(lines[..|lines| - 1], indent) + LaterLine(lines[|lines| - 1], indent)
  }

  /** The message Log hands on. */
  function Layout(level: LogLevel, message: Option<string>, formatted: string, timestamp: string): string
  {
    if message.None? || IsBlank(message.value) then ""
    else
      var data := Prefix(timestamp, level);
      var lines := Split(formatted, LineBreaks);
      data + lines[0] + LaterLines(lines[1..], Indent(data))
  }

  /** The steps of Log that build the message: blank check, prefix and split, then the merge loop. */
  method BuildMessage(level: LogLevel, message: Option<string>, formatted: string, timestamp: string) returns (r: string)
    ensures r == Layout(level, message, formatted, timestamp)
  {
    if message.None? || IsBlank(message.value) {
      return "";
    }
    var data := Prefix(timestamp, level);
    var lines := Split(formatted, LineBreaks);
    r := MergeLines(data, lines);
  }

  /** "Merge the lines back together": the prefix and first line, then each later non-blank line, trimmed. */
  method MergeLines(data: string, lines: seq<string>) returns (r: string)
    requires |lines| >= 1
    ensures r == data + lines[0] + LaterLines(lines[1..], Indent(data))
  {
    var indent := Indent(data);
    r := data + lines[0];
    ghost var head := r;
    assert LaterLines(lines[1..1], indent) == "";
    assert r == head + "";
    for i := 1 to |lines|
      invariant r == head + LaterLines(lines[1..i], indent)
    {
      LaterLinesSnoc(lines, i, indent);
      ghost var done := LaterLines(lines[1..i], indent);
      var piece := LaterPiece(lines[i], indent);
      Assoc(head, done, piece);
      r := r + piece;
    }
    assert lines[1..|lines|] == lines[1..];
  }

  /** One pass of the merge loop: trim the line and, unless that leaves it blank, add it on a new line. */
  method LaterPiece(line: string, indent: string) returns (piece: string)
    ensures piece == LaterLine(line, indent)
  {
    var trimmed := Trim(line);
    piece := "";
    if !IsBlank(trimmed) {
      piece := NewLine + indent + trimmed;
    }
  }

  lemma Assoc(a: string, b: string, c: string)
    ensures (a + b) + c == a + (b + c)
  {
  }

  lemma LaterLinesSnoc(lines: seq<string>, i: nat, indent: string)
    requires 1 <= i < |lines|
    ensures LaterLines(lines[1..i + 1], indent) == LaterLines(lines[1..i], indent) + LaterLine(lines[i], indent)
  {
    assert lines[1..i + 1][..i - 1] == lines[1..i];
  }

  // ---------------------------------------------------------------------
  // Properties of the layout

  /** A missing or white-space-only message is logged as the empty string, with no prefix. */
  lemma BlankMessage(level: LogLevel, message: Option<string>, formatted: string, timestamp: string)
    requires message.None? || IsBlank(message.value)
    ensures Layout(level, message, formatted, timestamp) == ""
  {
  }

  /**
   * Otherwise the message starts with "[timestamp-L] " (L the first letter
   * of the level's name) and the whole first line, untrimmed, and every
   * later piece starts on a new line.
   */
  lemma MessageStart(level: LogLevel, message: string, formatted: string, timestamp: string)
    requires !IsBlank(message)
    ensures var r := Layout(level, Some(message), formatted, timestamp);
      var data := "[" + timestamp + "-" + [LevelName(level)[0]] + "] ";
      var first := Split(formatted, LineBreaks)[0];
      |r| >= |data| + |first| && r[..|data|] == data && r[|data|..|data| + |first|] == first
      && var rest := r[|data| + |first|..]; rest == "" || (|rest| >= 2 && rest[..2] == NewLine)
  {
    var data := Prefix(timestamp, level);
    var lines := Split(formatted, LineBreaks);
    var first := lines[0];
    var rest := LaterLines(lines[1..], Indent(data));
    LaterLinesStart(lines[1..], Indent(data));
    ConcatParts(data, first, rest);
  }

  lemma ConcatParts(data: string, first: string, rest: string)
    ensures var r := data + first + rest;
      r[..|data|] == data && r[|data|..|data| + |first|] == first && r[|data| + |first|..] == rest
  {
  }

  /** Non-empty later output begins with a line break. */
  lemma {:induction false} LaterLinesStart(lines: seq<string>, indent: string)
    ensures var r := LaterLines(lines, indent); r == "" || (|r| >= 2 && r[..2] == NewLine)
  {
    if lines != [] {
      var init := lines[..|lines| - 1];
      LaterLinesStart(init, indent);
      var front := LaterLines(init, indent);
      var last := LaterLine(lines[|lines| - 1], indent);
      assert LaterLines(lines, indent) == front + last;
      LineStart(lines[|lines| - 1], indent);
      if front == "" {
        assert front + last == last;
      } else {
        assert (front + last)[..2] == front[..2];
      }
    }
  }

  /** One later line is empty or starts with a line break. */
  lemma LineStart(line: string, indent: string)
    ensures var r := LaterLine(line, indent); r == "" || (|r| >= 2 && r[..2] == NewLine)
  {
    var t := Trim(line);
    if !IsBlank(t) {
      assert (NewLine + indent + t)[..2] == NewLine;
    }
  }

  /** The indent is as long as the prefix and holds white space only. */
  lemma IndentIsBlank(data: string)
    ensures |Indent(data)| == |data| && IsBlank(Indent(data))
    ensures forall i :: 0 <= i < |data| && IsWhiteSpace(data[i]) ==> Indent(data)[i] == data[i]
  {
  }

  /** Later lines lay out piece by piece. */
  lemma {:induction false} LaterLinesAppend(a: seq<string>, b: seq<string>, indent: string)
    ensures LaterLines(a + b, indent) == LaterLines(a, indent) + LaterLines(b, indent)
  {
    if b != [] {
      var init := b[..|b| - 1];
      assert (a + b)[..|a + b| - 1] == a + init;
      LaterLinesAppend(a, init, indent);
    } else {
      assert a + b == a;
    }
  }

  /** Later lines that are all blank add nothing. */
  lemma {:induction false} BlankLinesDropped(lines: seq<string>, indent: string)
    requires forall i :: 0 <= i < |lines| ==> IsBlank(lines[i])
    ensures LaterLines(lines, indent) == ""
  {
    if lines != [] {
      BlankLinesDropped(lines[..|lines| - 1], indent);
      TrimBlank(lines[|lines| - 1]);
    }
  }

  /**
   * A Windows line break "\r\n" between two lines yields one line break in
   * the output and no blank line: the empty piece between '\r' and '\n' is
   * dropped.
   */
  lemma CrLfIsOneBreak(level: LogLevel, message: string, timestamp: string, a: string, b: string)
    requires !IsBlank(message)
    requires forall i :: 0 <= i < |a| ==> a[i] !in LineBreaks
    requires forall i :: 0 <= i < |b| ==> b[i] !in LineBreaks
    ensures var data := Prefix(timestamp, level);
      Layout(level, Some(message), a + NewLine + b, timestamp) ==
        data + a + (if IsBlank(Trim(b)) then "" else NewLine + Indent(data) + Trim(b))
  {
    var data := Prefix(timestamp, level);
    var ind := Indent(data);
    SplitCrLf(a, b);
    var lines := Split(a + NewLine + b, LineBreaks);
    assert Layout(level, Some(message), a + NewLine + b, timestamp) == data + lines[0] + LaterLines(lines[1..], ind);
    assert lines[0] == a && lines[1..] == ["", b];
    LaterLinesPair("", b, ind);
    EmptyLaterLine(ind);
    assert LaterLines(lines[1..], ind) == LaterLine(b, ind);
  }

  /** Two later lines lay out one after the other. */
  lemma LaterLinesPair(x: string, y: string, indent: string)
    ensures LaterLines([x, y], indent) == LaterLine(x, indent) + LaterLine(y, indent)
  {
    LaterLinesAppend([x], [y], indent);
    assert [x] + [y] == [x, y];
    LaterLinesOne(x, indent);
    LaterLinesOne(y, indent);
  }

  lemma LaterLinesOne(x: string, indent: string)
    ensures LaterLines([x], indent) == LaterLine(x, indent)
  {
    assert [x][..0] == [];
  }

  /** An empty piece adds nothing. */
  lemma EmptyLaterLine(indent: string)
    ensures LaterLine("", indent) == ""
  {
    TrimBlank("");
  }

  /** Splitting on '\r' and '\n' separately turns "a\r\nb" into a, an empty piece, and b. */
  lemma SplitCrLf(a: string, b: string)
    requires forall i :: 0 <= i < |a| ==> a[i] !in LineBreaks
    requires forall i :: 0 <= i < |b| ==> b[i] !in LineBreaks
    ensures Split(a + NewLine + b, LineBreaks) == [a, "", b]
  {
    assert a + NewLine + b == a + ['\r'] + (['\n'] + b);
    SplitAt(a, '\r', ['\n'] + b, LineBreaks);
    SplitNoSeparator(a, LineBreaks);
    SplitNoSeparator(b, LineBreaks);
    assert (['\n'] + b)[1..] == b;
  }

  /** A Logger: the event passed to the Message handlers and then to WriteMessage. */
  class Logger {
    /** Every handler call and every WriteMessage call, oldest first. */
    var calls: seq<LogCall>

    constructor()
      ensures calls == []
    {
      calls := [];
    }

    /** Log(level, message, args): the same LogEventArgs goes to the Message handlers, then to WriteMessage. */
    method Log(level: LogLevel, message: Option<string>, formatted: string, timestamp: string)
      modifies this
      ensures var e := LogEventArgs(level, Layout(level, message, formatted, timestamp));
        calls == old(calls) + [Handled(e), Written(e)]
    {
      var text := BuildMessage(level, message, formatted, timestamp);
      var logArgs := LogEventArgs(level, text);
      calls := calls + [Handled(logArgs)];
      calls := calls + [Written(logArgs)];
    }
  }
}
