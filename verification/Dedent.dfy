/** `dedent` of `localization-extractor.ts`. */
module Dedent {
  import opened Wrappers
  import opened Text

  /** The characters of `\s`, which are also those that `trim` removes. */
  predicate IsSpace(c: char) {
    || c in {' ', '\t', '\n', '\r', '\U{0b}', '\U{0c}', '\U{a0}', '\U{1680}', '\U{2028}', '\U{2029}', '\U{202f}',
          '\U{205f}', '\U{3000}', '\U{feff}'}
    || '\U{2000}' <= c <= '\U{200a}'
  }

  /** By code points: `WhiteSpace` and `LineTerminator` of sections 12.2 and 12.3 of ECMA-262. */
  lemma SpaceCodePoints(c: char)
    ensures var n := c as int;
            IsSpace(c) <==>
            || 9 <= n <= 13 || n in {0x20, 0xa0, 0x1680, 0x2028, 0x2029, 0x202f, 0x205f, 0x3000, 0xfeff}
            || 0x2000 <= n <= 0x200a
  {
  }

  /** The length of the leading white space: `line.match(/^(\s*)/)[1].length`. */
  function Indent(line: string): (n: nat)
    ensures n <= |line|
    ensures forall i | 0 <= i < n :: IsSpace(line[i])
    ensures n < |line| ==> !IsSpace(line[n])
  {
    if line == "" || !IsSpace(line[0]) then 0 else 1 + Indent(line[1..])
  }

  /** `line.trim().length === 0` */
  predicate Blank(line: string) {
    forall i | 0 <= i < |line| :: IsSpace(line[i])
  }

  /** `line.substring(n)` */
  function Substring(line: string, n: nat): string {
    if n <= |line| then line[n..] else ""
  }

  /** `n` is the least indentation of the non-blank lines after the first one. */
  ghost predicate MinIndent(lines: seq<string>, n: nat) {
    && (exists i | 1 <= i < |lines| :: !Blank(lines[i]) && Indent(lines[i]) == n)
    && (forall i | 1 <= i < |lines| && !Blank(lines[i]) :: n <= Indent(lines[i]))
  }

  ghost predicate AllBlank(lines: seq<string>) {
    forall i | 1 <= i < |lines| :: Blank(lines[i])
  }

  /** The width that is removed: 0 when there is nothing to remove. */
  ghost predicate Width(lines: seq<string>, n: nat) {
    MinIndent(lines, n) || (AllBlank(lines) && n == 0)
  }

  function RemoveIndent(lines: seq<string>, n: nat): (r: seq<string>)
    ensures |r| == |lines|
  {
    seq(|lines|, i requires 0 <= i < |lines| => if i == 0 then lines[i] else Substring(lines[i], n))
  }

  /** The first loop; `None` is the initial `Infinity`. */
  method FindMinIndent(lines: seq<string>) returns (minIndent: Option<nat>)
    requires |lines| > 1
    ensures match minIndent
            case None => AllBlank(lines)
            case Some(n) => MinIndent(lines, n)
  {
    minIndent := None;
    ghost var at := 0;
    for i := 1 to |lines|
      invariant minIndent.None? ==> forall k | 1 <= k < i :: Blank(lines[k])
      invariant minIndent.Some? ==> 1 <= at < i && !Blank(lines[at]) && Indent(lines[at]) == minIndent.value
      invariant minIndent.Some? ==> forall k | 1 <= k < i && !Blank(lines[k]) :: minIndent.value <= Indent(lines[k])
    {
      var line := lines[i];
      if !Blank(line) {
        var indent := Indent(line);
        if minIndent.None? || indent < minIndent.value {
          minIndent, at := Some(indent), i;
        }
      }
    }
  }

  /** `r` has the lines of `str`, each but the first cut by the width that they have in common. */
  ghost predicate Dedented(str: string, r: string) {
    exists width: nat :: Width(Split(str, '\n'), width) && Split(r, '\n') == RemoveIndent(Split(str, '\n'), width)
  }

  method DedentText(str: string) returns (r: string)
    ensures Dedented(str, r)
  {
    var lines := Split(str, '\n');
    assert RemoveIndent(lines, 0) == lines && (Width(lines, 0) ==> Dedented(str, str));
    if |lines| <= 1 {
      return str;
    }
    var minIndent := FindMinIndent(lines);
    if minIndent.None? || minIndent.value == 0 {
      return str;
    }
    var width := minIndent.value;
    var dedented := [lines[0]];
    for i := 1 to |lines|
      invariant dedented == RemoveIndent(lines, width)[..i]
    {
      dedented := dedented + [Substring(lines[i], width)];
    }
    CutPiecesHaveNoSeparator(str, width);
    assert dedented == RemoveIndent(lines, width);
    SplitJoin(dedented, '\n');
    r := Join(dedented, "\n");
  }

  lemma CutPiecesHaveNoSeparator(str: string, width: nat)
    ensures forall p | p in RemoveIndent(Split(str, '\n'), width) :: '\n' !in p
  {
    PiecesHaveNoSeparator(str, '\n');
    var lines := Split(str, '\n');
    var cut := RemoveIndent(lines, width);
    forall p | p in cut ensures '\n' !in p {
      var i :| 0 <= i < |cut| && cut[i] == p;
      assert lines[i] in lines;
    }
  }

  lemma WidthIsUnique(lines: seq<string>, m: nat, n: nat)
    requires Width(lines, m) && Width(lines, n)
    ensures m == n
  {
  }

  lemma {:induction false} IndentOfRest(line: string, n: nat)
    requires n <= Indent(line)
    ensures Indent(line[n..]) == Indent(line) - n && (Blank(line[n..]) <==> Blank(line))
  {
    if n > 0 {
      IndentOfRest(line[1..], n - 1);
      assert line[1..][n - 1..] == line[n..];
      assert Blank(line) <==> Blank(line[1..]) by {
        assert forall i | 0 <= i < |line| - 1 :: line[1..][i] == line[i + 1];
        assert forall i | 0 < i < |line| :: line[i] == line[1..][i - 1];
      }
    }
  }

  /** Cutting a line at its indentation or before, or a blank line anywhere. */
  lemma CutLine(line: string, n: nat)
    requires Blank(line) || n <= Indent(line)
    ensures var cut := Substring(line, n);
            && Blank(line[..|line| - |cut|]) && (Blank(cut) <==> Blank(line))
            && (!Blank(line) ==> |line| - |cut| == n && Indent(cut) == Indent(line) - n)
  {
    if !Blank(line) {
      IndentOfRest(line, n);
    }
  }

  /** Each non-blank line after the first loses exactly `width` characters of white space, and no line more. */
  lemma OnlyWhiteSpaceIsRemoved(lines: seq<string>, width: nat, i: nat)
    requires Width(lines, width) && 1 <= i < |lines|
    ensures var line, cut := lines[i], RemoveIndent(lines, width)[i];
            && |cut| <= |line| && Blank(line[..|line| - |cut|]) && line == line[..|line| - |cut|] + cut
            && (!Blank(line) ==> |line| - |cut| == width && Indent(cut) == Indent(line) - width)
            && (Blank(cut) <==> Blank(line))
  {
    CutLine(lines[i], width);
  }

  /** What is left has no common indentation, so a second `dedent` removes nothing. */
  lemma DedentIsIdempotent(lines: seq<string>, width: nat, again: nat)
    requires Width(lines, width) && Width(RemoveIndent(lines, width), again)
    ensures again == 0 && RemoveIndent(RemoveIndent(lines, width), again) == RemoveIndent(lines, width)
  {
    var cut := RemoveIndent(lines, width);
    forall i: nat | 1 <= i < |lines|
      ensures Blank(cut[i]) <==> Blank(lines[i])
      ensures !Blank(lines[i]) ==> Indent(cut[i]) == Indent(lines[i]) - width
    {
      OnlyWhiteSpaceIsRemoved(lines, width, i);
    }
  }

  /** `dedent` keeps the number of lines, has one result, and is idempotent. */
  lemma DedentedTwice(str: string, once: string, twice: string)
    requires Dedented(str, once) && Dedented(once, twice)
    ensures |Split(once, '\n')| == |Split(str, '\n')| && twice == once
  {
    var lines := Split(str, '\n');
    var width: nat :| Width(lines, width) && Split(once, '\n') == RemoveIndent(lines, width);
    var again: nat :| Width(Split(once, '\n'), again) && Split(twice, '\n') == RemoveIndent(Split(once, '\n'), again);
    DedentIsIdempotent(lines, width, again);
    SplitIsInjective(once, twice, '\n');
  }

  lemma DedentedIsUnique(str: string, a: string, b: string)
    requires Dedented(str, a) && Dedented(str, b)
    ensures a == b
  {
    var lines := Split(str, '\n');
    var m: nat :| Width(lines, m) && Split(a, '\n') == RemoveIndent(lines, m);
    var n: nat :| Width(lines, n) && Split(b, '\n') == RemoveIndent(lines, n);
    WidthIsUnique(lines, m, n);
    SplitIsInjective(a, b, '\n');
  }
}
