/** `addIgnoreTags` and `removeIgnoreTags` of `localization-manager.ts`: chains of global replaces. */
module IgnoreTags {
  /** `s.replace(/pattern/g, replacement)` for a pattern that is a plain string. */
  function ReplaceAll(s: string, pattern: string, replacement: string): string
    requires pattern != ""
  {
    if s == "" then ""
    else if pattern <= s then replacement + ReplaceAll(s[|pattern|..], pattern, replacement)
    else [s[0]] + ReplaceAll(s[1..], pattern, replacement)
  }

  predicate IsDigit(c: char) {
    '0' <= c <= '9'
  }

  function Digits(s: string): (n: nat)
    ensures n <= |s|
  {
    if s != "" && IsDigit(s[0]) then 1 + Digits(s[1..]) else 0
  }

  /** The length of the match of `\{\d+\}` at the start of `s`, 0 if there is none. */
  function Placeholder(s: string): (n: nat)
    ensures n <= |s|
  {
    if s == "" || s[0] != '{' then 0
    else
      var d := Digits(s[1..]);
      if d > 0 && d + 1 < |s| && s[d + 1] == '}' then d + 2 else 0
  }

  /** `s.replace(/(\{\d+\})/g, '<x>$1</x>')` */
  function Wrap(s: string): string {
    if s == "" then ""
    else
      var n := Placeholder(s);
      if n > 0 then "<x>" + s[..n] + "</x>" + Wrap(s[n..]) else [s[0]] + Wrap(s[1..])
  }

  /** The length of the placeholder in a match of `<x>(\{\d+\})</x>` at the start of `s`, 0 if there is none. */
  function Wrapped(s: string): (n: nat)
    ensures n > 0 ==> n + 7 <= |s|
  {
    if !("<x>" <= s) then 0
    else
      var n := Placeholder(s[3..]);
      if n > 0 && "</x>" <= s[n + 3..] then n else 0
  }

  /** `s.replace(/<x>(\{\d+\})<\/x>/g, '$1')` */
  function Unwrap(s: string): string {
    if s == "" then ""
    else
      var n := Wrapped(s);
      if n > 0 then s[3..n + 3] + Unwrap(s[n + 7..]) else [s[0]] + Unwrap(s[1..])
  }

  function AddIgnoreTags(text: string): string {
    Wrap(ReplaceAll(ReplaceAll(ReplaceAll(text, "&", "&amp;"), "<", "&lt;"), ">", "&gt;"))
  }

  function RemoveIgnoreTags(text: string): string {
    ReplaceAll(ReplaceAll(ReplaceAll(Unwrap(text), "&lt;", "<"), "&gt;", ">"), "&amp;", "&")
  }

  /** Escapes the characters of `which` one by one: what the chain of replaces amounts to. */
  function Escape(s: string, which: set<char>): string {
    if s == "" then "" else EscapeChar(s[0], which) + Escape(s[1..], which)
  }

  function EscapeChar(c: char, which: set<char>): string {
    if c !in which then [c]
    else match c case '&' => "&amp;" case '<' => "&lt;" case '>' => "&gt;" case _ => [c]
  }

  /** A global replace goes on behind text in which it finds nothing. */
  lemma {:induction false} ReplaceBehind(a: string, b: string, pattern: string, replacement: string)
    requires pattern != "" && forall i | 0 < i < |a| :: a[i] != pattern[0]
    requires a != "" && !(pattern <= a + b)
    ensures ReplaceAll(a + b, pattern, replacement) == a + ReplaceAll(b, pattern, replacement)
  {
    assert (a + b)[1..] == a[1..] + b;
    if |a| > 1 {
      ReplaceBehind(a[1..], b, pattern, replacement);
    } else {
      assert a[1..] + b == b;
    }
  }

  lemma ReplaceHere(b: string, pattern: string, replacement: string)
    requires pattern != ""
    ensures ReplaceAll(pattern + b, pattern, replacement) == replacement + ReplaceAll(b, pattern, replacement)
  {
    assert (pattern + b)[|pattern|..] == b;
  }

  /** One more character escaped: `c` does not occur in what the earlier replaces put in. */
  lemma {:induction false} EscapeMore(s: string, which: set<char>, c: char)
    requires (which == {} && c == '&') || (which == {'&'} && c == '<') || (which == {'&', '<'} && c == '>')
    ensures ReplaceAll(Escape(s, which), [c], EscapeChar(c, {c})) == Escape(s, which + {c})
  {
    if s != "" {
      EscapeMore(s[1..], which, c);
      var head, rest := EscapeChar(s[0], which), Escape(s[1..], which);
      if s[0] == c {
        ReplaceHere(rest, [c], EscapeChar(c, {c}));
      } else {
        assert (head + rest)[0] == head[0] != c;
        ReplaceBehind(head, rest, [c], EscapeChar(c, {c}));
      }
    }
  }

  /** One character unescaped: the other entities begin with `&` too, but go on differently. */
  lemma {:induction false} EscapeLess(s: string, which: set<char>, c: char)
    requires (which == {'&', '<', '>'} && c == '<') || (which == {'&', '>'} && c == '>') || (which == {'&'} && c == '&')
    ensures ReplaceAll(Escape(s, which), EscapeChar(c, {c}), [c]) == Escape(s, which - {c})
  {
    if s != "" {
      EscapeLess(s[1..], which, c);
      var head, rest := EscapeChar(s[0], which), Escape(s[1..], which);
      var entity := EscapeChar(c, {c});
      if s[0] == c {
        ReplaceHere(rest, entity, [c]);
      } else {
        assert (head + rest)[0] == head[0];
        assert |head| > 1 ==> (head + rest)[1] == head[1] != entity[1];
        ReplaceBehind(head, rest, entity, [c]);
      }
    }
  }

  lemma {:induction false} EscapeNothing(s: string)
    ensures Escape(s, {}) == s
  {
    if s != "" {
      EscapeNothing(s[1..]);
    }
  }

  lemma {:induction false} EscapedHasNoBrackets(s: string)
    ensures '<' !in Escape(s, {'&', '<', '>'}) && '>' !in Escape(s, {'&', '<', '>'})
  {
    if s != "" {
      EscapedHasNoBrackets(s[1..]);
    }
  }

  /** The digits at the start of a text that goes on with something else than a digit. */
  lemma {:induction false} DigitsStop(a: string, b: string)
    requires Digits(a) == |a| && (b == "" || !IsDigit(b[0]))
    ensures Digits(a + b) == |a|
  {
    if a == "" {
      assert a + b == b;
    } else {
      assert (a + b)[1..] == a[1..] + b;
      DigitsStop(a[1..], b);
    }
  }

  lemma {:induction false} DigitsAreDigits(s: string)
    ensures Digits(s[..Digits(s)]) == Digits(s)
  {
    if s != "" && IsDigit(s[0]) {
      DigitsAreDigits(s[1..]);
      assert s[..Digits(s)][1..] == s[1..][..Digits(s[1..])];
    }
  }

  /** A placeholder is found again in front of any other text. */
  lemma PlaceholderAgain(s: string, b: string)
    requires Placeholder(s) > 0
    ensures Placeholder(s[..Placeholder(s)] + b) == Placeholder(s)
  {
    var n := Placeholder(s);
    var p := s[..n];
    DigitsAreDigits(s[1..]);
    var digits := s[1..n - 1];
    assert s[1..][..Digits(s[1..])] == digits;
    assert (p + b)[1..] == digits + (['}'] + b);
    DigitsStop(digits, ['}'] + b);
  }

  lemma WrappedIsFound(w: string, p: string, after: string)
    requires Placeholder(p) == |p| > 0 && |w| >= 3 && w[..3] == "<x>" && w[3..] == p + after && "</x>" <= after
    ensures Wrapped(w) == |p|
  {
    assert p[..|p|] == p;
    PlaceholderAgain(p, after);
    assert w[|p| + 3..] == after;
  }

  lemma UnwrapFound(w: string, p: string, b: string)
    requires Wrapped(w) == |p| > 0 && w[3..|p| + 3] == p && w[|p| + 7..] == b
    ensures Unwrap(w) == p + Unwrap(b)
  {
  }

  lemma UnwrapOne(open: string, p: string, close: string, b: string)
    requires Placeholder(p) == |p| > 0 && open == "<x>" && close == "</x>"
    ensures Unwrap(open + p + close + b) == p + Unwrap(b)
  {
    var w := open + p + close + b;
    assert w == open + (p + (close + b));
    WrappedIsFound(w, p, close + b);
    UnwrapFound(w, p, b);
  }

  lemma UnwrapOther(c: char, b: string)
    requires c != '<'
    ensures Unwrap([c] + b) == [c] + Unwrap(b)
  {
    var w := [c] + b;
    assert w[0] == c && w[1..] == b && Wrapped(w) == 0;
  }

  lemma PlaceholderOfItself(s: string)
    requires Placeholder(s) > 0
    ensures Placeholder(s[..Placeholder(s)]) == Placeholder(s)
  {
    PlaceholderAgain(s, "");
    assert s[..Placeholder(s)] + "" == s[..Placeholder(s)];
  }

  lemma WrapPlaceholder(p: string, b: string)
    requires Placeholder(p) == |p| > 0
    ensures Wrap(p + b) == "<x>" + p + "</x>" + Wrap(b)
  {
    assert p[..|p|] == p;
    PlaceholderAgain(p, b);
    assert (p + b)[..|p|] == p && (p + b)[|p|..] == b;
  }

  lemma UnwrapWrapPlaceholder(p: string, b: string)
    requires Placeholder(p) == |p| > 0 && Unwrap(Wrap(b)) == b
    ensures Unwrap(Wrap(p + b)) == p + b
  {
    WrapPlaceholder(p, b);
    UnwrapOne("<x>", p, "</x>", Wrap(b));
  }

  lemma UnwrapWrapOther(s: string)
    requires s != "" && Placeholder(s) == 0 && s[0] != '<' && Unwrap(Wrap(s[1..])) == s[1..]
    ensures Unwrap(Wrap(s)) == s
  {
    WrapOther(s);
    UnwrapOther(s[0], Wrap(s[1..]));
  }

  lemma WrapOther(s: string)
    requires s != "" && Placeholder(s) == 0
    ensures Wrap(s) == [s[0]] + Wrap(s[1..])
  {
  }

  /** Removing the tags undoes adding them in a text without angle brackets of its own. */
  lemma {:induction false} UnwrapWrap(s: string)
    requires '<' !in s
    ensures Unwrap(Wrap(s)) == s
  {
    if s != "" {
      var n := Placeholder(s);
      if n > 0 {
        UnwrapWrap(s[n..]);
        PlaceholderOfItself(s);
        UnwrapWrapPlaceholder(s[..n], s[n..]);
        assert s == s[..n] + s[n..];
      } else {
        UnwrapWrap(s[1..]);
        assert s[0] in s;
        UnwrapWrapOther(s);
      }
    }
  }

  /** The tags are transparent for every text, whatever entities, tags or braces it contains. */
  lemma IgnoreTagsRoundTrip(s: string)
    ensures RemoveIgnoreTags(AddIgnoreTags(s)) == s
  {
    EscapeNothing(s);
    AddIgnoreTagsEscapesAll(s);
    UnwrapWrap(Escape(s, {'&', '<', '>'}));
    EscapeLess(s, {'&', '<', '>'}, '<');
    EscapeLess(s, {'&', '>'}, '>');
    EscapeLess(s, {'&'}, '&');
    assert {'&', '<', '>'} - {'<'} == {'&', '>'} && {'&', '>'} - {'>'} == {'&'} && {'&'} - {'&'} == {};
  }

  /** Adding the tags escapes every `&`, `<` and `>` and then wraps. */
  lemma AddIgnoreTagsEscapesAll(s: string)
    ensures AddIgnoreTags(s) == Wrap(Escape(s, {'&', '<', '>'}))
    ensures '<' !in Escape(s, {'&', '<', '>'}) && '>' !in Escape(s, {'&', '<', '>'})
  {
    EscapeNothing(s);
    EscapeMore(s, {}, '&');
    EscapeMore(s, {'&'}, '<');
    EscapeMore(s, {'&', '<'}, '>');
    assert {} + {'&'} == {'&'} && {'&'} + {'<'} == {'&', '<'} && {'&', '<'} + {'>'} == {'&', '<', '>'};
    EscapedHasNoBrackets(s);
  }

  /** The leftmost placeholder is wrapped, and wrapping goes on behind it. */
  lemma {:induction false} LeftmostPlaceholderIsWrapped(a: string, p: string, b: string)
    requires Placeholder(p) == |p| > 0
    requires forall i | 0 <= i < |a| :: Placeholder((a + p + b)[i..]) == 0
    ensures Wrap(a + p + b) == a + ("<x>" + p + "</x>" + Wrap(b))
  {
    var s := a + p + b;
    if a == "" {
      assert s == p + b;
      WrapPlaceholder(p, b);
    } else {
      assert s[0..] == s;
      WrapOther(s);
      assert s[1..] == a[1..] + p + b;
      assert forall i | 0 <= i < |a| - 1 :: s[1..][i..] == s[i + 1..];
      LeftmostPlaceholderIsWrapped(a[1..], p, b);
      assert a == [a[0]] + a[1..];
    }
  }

  lemma {:induction false} NothingToWrap(s: string)
    requires forall i | 0 <= i < |s| :: Placeholder(s[i..]) == 0
    ensures Wrap(s) == s
  {
    if s != "" {
      assert s[0..] == s && forall i | 0 <= i < |s| - 1 :: s[1..][i..] == s[i + 1..];
      NothingToWrap(s[1..]);
    }
  }
}
