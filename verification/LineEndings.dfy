/** `findEol` and `convertEol` of `bin-theia-re-exports.ts` against splitting into lines. */
module LineEndings {
  import opened Text

  datatype Eol = CRLF | LF | CR {
    function Chars(): string {
      match this
      case CRLF => "\r\n"
      case LF => "\n"
      case CR => "\r"
    }
  }

  /** The length of the line ending at the start of `s`, 0 if there is none. */
  function EndingLength(s: string): (n: nat)
    ensures n <= |s|
  {
    if "\r\n" <= s then 2
    else if s != "" && (s[0] == '\r' || s[0] == '\n') then 1
    else 0
  }

  /** The lines of `s`, split at each CRLF, CR or LF. */
  function Lines(s: string): (r: seq<string>)
    ensures |r| > 0
    decreases |s|
  {
    if s == "" then [""]
    else
      var n := EndingLength(s);
      if n > 0 then [""] + Lines(s[n..])
      else
        var rest := Lines(s[1..]);
        [[s[0]] + rest[0]] + rest[1..]
  }

  /** `content.match(/\r\n?|\n/)` or the default of the operating system. */
  function FindEol(content: string, osEol: Eol): Eol {
    if content == "" then osEol
    else if "\r\n" <= content then CRLF
    else if content[0] == '\r' then CR
    else if content[0] == '\n' then LF
    else FindEol(content[1..], osEol)
  }

  /** `replace(/(?<!\r)\n|\r(?!\n)/g, '\r\n')`; `afterCr` tells whether a carriage return comes before. */
  function ToCrLf(s: string, afterCr: bool): string {
    if s == "" then ""
    else if s[0] == '\n' && !afterCr then "\r\n" + ToCrLf(s[1..], false)
    else if s[0] == '\r' && !("\r\n" <= s) then "\r\n" + ToCrLf(s[1..], true)
    else [s[0]] + ToCrLf(s[1..], s[0] == '\r')
  }

  /** `replace(/\r\n?/g, '\n')` */
  function ToLf(s: string): string
    decreases |s|
  {
    if s == "" then ""
    else if "\r\n" <= s then "\n" + ToLf(s[2..])
    else if s[0] == '\r' then "\n" + ToLf(s[1..])
    else [s[0]] + ToLf(s[1..])
  }

  /** `replace(/\r?\n/g, '\r')` */
  function ToCr(s: string): string
    decreases |s|
  {
    if s == "" then ""
    else if "\r\n" <= s then "\r" + ToCr(s[2..])
    else if s[0] == '\n' then "\r" + ToCr(s[1..])
    else [s[0]] + ToCr(s[1..])
  }

  function ConvertEol(eol: Eol, content: string): string {
    match eol
    case CRLF => ToCrLf(content, false)
    case LF => ToLf(content)
    case CR => ToCr(content)
  }

  lemma JoinOfFirst(c: char, rest: seq<string>, separator: string)
    requires rest != []
    ensures Join([[c] + rest[0]] + rest[1..], separator) == [c] + Join(rest, separator)
  {
    assert ([[c] + rest[0]] + rest[1..])[1..] == rest[1..];
    if |rest| > 1 {
      var joined := Join(rest[1..], separator);
      assert [c] + rest[0] + separator + joined == [c] + (rest[0] + separator + joined);
    }
  }

  lemma JoinOfEmpty(rest: seq<string>, separator: string)
    requires rest != []
    ensures Join([""] + rest, separator) == separator + Join(rest, separator)
  {
    assert ([""] + rest)[1..] == rest;
  }

  lemma {:induction false} ToLfJoinsLines(s: string)
    ensures ToLf(s) == Join(Lines(s), "\n")
    decreases |s|
  {
    if s != "" {
      var n := EndingLength(s);
      if n > 0 {
        ToLfJoinsLines(s[n..]);
        JoinOfEmpty(Lines(s[n..]), "\n");
      } else {
        ToLfJoinsLines(s[1..]);
        JoinOfFirst(s[0], Lines(s[1..]), "\n");
      }
    }
  }

  lemma {:induction false} ToCrJoinsLines(s: string)
    ensures ToCr(s) == Join(Lines(s), "\r")
    decreases |s|
  {
    if s != "" {
      var n := EndingLength(s);
      if n > 0 {
        ToCrJoinsLines(s[n..]);
        JoinOfEmpty(Lines(s[n..]), "\r");
      } else {
        ToCrJoinsLines(s[1..]);
        JoinOfFirst(s[0], Lines(s[1..]), "\r");
      }
    }
  }

  lemma ToCrLfKeepsPair(s: string, afterCr: bool)
    requires |s| >= 2 && s[0] == '\r' && s[1] == '\n'
    ensures ToCrLf(s, afterCr) == "\r\n" + ToCrLf(s[2..], false)
  {
    var rest := s[1..];
    assert rest[1..] == s[2..] && rest[0] == '\n';
    assert s[..2] == "\r\n";
    var tail := ToCrLf(rest[1..], false);
    assert ToCrLf(rest, true) == [rest[0]] + tail;
    assert [s[0]] + ([rest[0]] + tail) == "\r\n" + tail;
  }

  /** The look-behind only matters for a line feed right after a carriage return. */
  lemma {:induction false} ToCrLfJoinsLines(s: string, afterCr: bool)
    requires afterCr ==> s == "" || s[0] != '\n'
    ensures ToCrLf(s, afterCr) == Join(Lines(s), "\r\n")
    decreases |s|
  {
    if s != "" {
      var n := EndingLength(s);
      if n == 2 {
        ToCrLfJoinsLines(s[2..], false);
        JoinOfEmpty(Lines(s[2..]), "\r\n");
        ToCrLfKeepsPair(s, afterCr);
      } else if n == 1 {
        ToCrLfJoinsLines(s[1..], s[0] == '\r');
        JoinOfEmpty(Lines(s[1..]), "\r\n");
      } else {
        ToCrLfJoinsLines(s[1..], false);
        JoinOfFirst(s[0], Lines(s[1..]), "\r\n");
      }
    }
  }

  /** Each replace is splitting into lines and joining with the new line ending. */
  lemma ConvertEolJoinsLines(eol: Eol, content: string)
    ensures ConvertEol(eol, content) == Join(Lines(content), eol.Chars())
  {
    match eol
    case CRLF => ToCrLfJoinsLines(content, false);
    case LF => ToLfJoinsLines(content);
    case CR => ToCrJoinsLines(content);
  }

  ghost predicate OneLine(s: string) {
    '\r' !in s && '\n' !in s
  }

  lemma {:induction false} LinesAreLines(s: string)
    ensures forall l | l in Lines(s) :: OneLine(l)
    decreases |s|
  {
    if s != "" {
      var n := EndingLength(s);
      if n > 0 {
        LinesAreLines(s[n..]);
      } else {
        LinesAreLines(s[1..]);
        var rest := Lines(s[1..]);
        assert rest[0] in rest && forall l | l in rest[1..] :: l in rest;
      }
    }
  }

  lemma {:induction false} LinesOfText(line: string, tail: string)
    requires OneLine(line)
    ensures Lines(line + tail) == [line + Lines(tail)[0]] + Lines(tail)[1..]
  {
    if line == "" {
      assert line + tail == tail && line + Lines(tail)[0] == Lines(tail)[0];
    } else {
      var s := line + tail;
      assert s[1..] == line[1..] + tail && s[0] == line[0] && line[0] in line && EndingLength(s) == 0;
      LinesOfText(line[1..], tail);
      assert [line[0]] + (line[1..] + Lines(tail)[0]) == line + Lines(tail)[0];
    }
  }

  /** The text after a line ending does not begin with the other half of one. */
  lemma LinesOfEnding(eol: Eol, tail: string)
    requires eol == CR ==> tail == "" || tail[0] != '\n'
    ensures Lines(eol.Chars() + tail) == [""] + Lines(tail)
  {
    var s := eol.Chars() + tail;
    assert s[|eol.Chars()|..] == tail;
    assert EndingLength(s) == |eol.Chars()|;
  }

  lemma {:induction false} LinesOfJoin(lines: seq<string>, eol: Eol)
    requires lines != [] && forall l | l in lines :: OneLine(l)
    ensures Lines(Join(lines, eol.Chars())) == lines
    ensures eol == CR ==> '\n' !in Join(lines, eol.Chars())
  {
    assert OneLine(lines[0]);
    if |lines| == 1 {
      LinesOfText(lines[0], "");
      assert lines[0] + "" == lines[0];
    } else {
      var ending, tail := eol.Chars(), Join(lines[1..], eol.Chars());
      LinesOfJoin(lines[1..], eol);
      assert eol == CR ==> tail == "" || tail[0] in tail;
      LinesOfEnding(eol, tail);
      LinesOfText(lines[0], ending + tail);
      assert lines[0] + ending + tail == lines[0] + (ending + tail);
      assert lines[0] + "" == lines[0];
    }
  }

  /** Converting keeps the list of lines. */
  lemma ConvertEolKeepsLines(eol: Eol, content: string)
    ensures Lines(ConvertEol(eol, content)) == Lines(content)
  {
    ConvertEolJoinsLines(eol, content);
    LinesAreLines(content);
    LinesOfJoin(Lines(content), eol);
  }

  /** Only the last conversion counts; in particular a conversion is idempotent. */
  lemma ConvertEolTwice(first: Eol, second: Eol, content: string)
    ensures ConvertEol(second, ConvertEol(first, content)) == ConvertEol(second, content)
    ensures ConvertEol(first, ConvertEol(first, content)) == ConvertEol(first, content)
  {
    ConvertEolKeepsLines(first, content);
    ConvertEolJoinsLines(second, ConvertEol(first, content));
    ConvertEolJoinsLines(second, content);
    ConvertEolJoinsLines(first, ConvertEol(first, content));
    ConvertEolJoinsLines(first, content);
  }

  /** A converted text of several lines is recognised as having the line ending it was converted to. */
  lemma FindEolAfterConvert(eol: Eol, content: string, osEol: Eol)
    ensures FindEol(ConvertEol(eol, content), osEol) == if |Lines(content)| > 1 then eol else osEol
  {
    ConvertEolJoinsLines(eol, content);
    LinesAreLines(content);
    FindEolOfJoin(Lines(content), eol, osEol);
  }

  lemma {:induction false} FindEolInText(line: string, tail: string, osEol: Eol)
    requires OneLine(line)
    ensures FindEol(line + tail, osEol) == FindEol(tail, osEol)
  {
    if line == "" {
      assert line + tail == tail;
    } else {
      assert (line + tail)[1..] == line[1..] + tail && line[0] in line;
      FindEolInText(line[1..], tail, osEol);
    }
  }

  lemma FindEolAtEnding(eol: Eol, tail: string, osEol: Eol)
    requires eol == CR ==> tail == "" || tail[0] != '\n'
    ensures FindEol(eol.Chars() + tail, osEol) == eol
  {
    var s := eol.Chars() + tail;
    assert s[0] == eol.Chars()[0] && s[|eol.Chars()|..] == tail;
    match eol
    case CRLF => assert s[..2] == "\r\n";
    case LF => assert !("\r\n" <= s);
    case CR => assert tail != "" ==> s[1] == tail[0];
  }

  lemma FindEolOfJoin(lines: seq<string>, eol: Eol, osEol: Eol)
    requires lines != [] && forall l | l in lines :: OneLine(l)
    ensures FindEol(Join(lines, eol.Chars()), osEol) == if |lines| > 1 then eol else osEol
  {
    assert OneLine(lines[0]);
    if |lines| == 1 {
      FindEolInText(lines[0], "", osEol);
      assert lines[0] + "" == lines[0];
    } else {
      var tail := Join(lines[1..], eol.Chars());
      LinesOfJoin(lines[1..], eol);
      assert eol == CR ==> tail == "" || tail[0] in tail;
      assert lines[0] + eol.Chars() + tail == lines[0] + (eol.Chars() + tail);
      FindEolInText(lines[0], eol.Chars() + tail, osEol);
      FindEolAtEnding(eol, tail, osEol);
    }
  }
}
