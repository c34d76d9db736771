/**
 * What the ignore tags of `localization-manager.ts` are for: a placeholder such as `{0}` comes back from a
 * translation service that leaves tagged text alone.
 */
module Placeholders {
  import opened IgnoreTags
  import opened DeeplApi

  ghost predicate IsPlaceholder(p: string) {
    && |p| >= 3 && p[0] == '{' && p[|p| - 1] == '}'
    && forall i | 1 <= i < |p| - 1 :: p[i] in "0123456789"
  }

  /** Wherever the service gets a tagged placeholder, it returns it somewhere. */
  ghost predicate KeepsTagged(f: string -> string) {
    forall s, a, p, b | IsPlaceholder(p) && s == a + Tagged(p) + b :: Contains(f(s), Tagged(p))
  }

  function Tagged(p: string): string {
    "<x>" + p + "</x>"
  }

  ghost predicate Contains(s: string, part: string) {
    exists a, b :: s == a + part + b
  }

  // ----- The scanners agree with that description

  lemma {:induction false} AllDigits(s: string)
    ensures Digits(s) == |s| <==> forall i | 0 <= i < |s| :: s[i] in "0123456789"
  {
    if s != "" {
      AllDigits(s[1..]);
      assert IsDigit(s[0]) <==> s[0] in "0123456789";
      assert forall i | 1 <= i < |s| :: s[i] == s[1..][i - 1];
      assert forall i | 0 <= i < |s| - 1 :: s[1..][i] == s[i + 1];
    }
  }

  lemma PlaceholderMeans(p: string)
    ensures Placeholder(p) == |p| > 0 <==> IsPlaceholder(p)
  {
    if p != "" && p[0] == '{' {
      if IsPlaceholder(p) {
        var digits := p[1..|p| - 1];
        assert p[1..] == digits + "}";
        AllDigits(digits);
        DigitsStop(digits, "}");
      }
      if Placeholder(p) == |p| {
        var d := Digits(p[1..]);
        DigitsAreDigits(p[1..]);
        AllDigits(p[1..][..d]);
        assert forall i | 1 <= i < |p| - 1 :: p[i] == p[1..][..d][i - 1];
      }
    }
  }

  lemma MatchIsPlaceholder(s: string)
    requires Placeholder(s) > 0
    ensures IsPlaceholder(s[..Placeholder(s)])
  {
    PlaceholderOfItself(s);
    PlaceholderMeans(s[..Placeholder(s)]);
  }

  lemma InsidePlaceholder(q: string)
    requires IsPlaceholder(q)
    ensures forall i | 0 < i < |q| :: q[i] != '{'
  {
    forall i | 0 < i < |q| ensures q[i] != '{' {
      assert i < |q| - 1 ==> q[i] in "0123456789";
    }
  }

  lemma MatchStopsBefore(s: string, k: nat)
    requires 0 < k < |s| && s[k] == '{'
    ensures Placeholder(s) <= k
  {
    var n := Placeholder(s);
    if n > 0 {
      MatchIsPlaceholder(s);
      InsidePlaceholder(s[..n]);
      assert forall i | 0 < i < n :: s[i] == s[..n][i];
    }
  }

  /** A placeholder does not begin inside another one. */
  lemma NoOverlap(a: string, p: string, b: string)
    requires a != "" && IsPlaceholder(p)
    ensures Placeholder(a + p + b) == Placeholder(a)
  {
    var s := a + p + b;
    if Placeholder(a) > 0 {
      var n := Placeholder(a);
      PlaceholderAgain(a, a[n..] + p + b);
      assert s == a[..n] + (a[n..] + p + b);
    }
    if Placeholder(s) > 0 {
      var n := Placeholder(s);
      assert s[|a|] == p[0];
      MatchStopsBefore(s, |a|);
      PlaceholderOfItself(s);
      assert s[..n] == a[..n];
      PlaceholderAgain(a[..n], a[n..]);
      assert a == a[..n] + a[n..] && a[..n][..n] == a[..n];
    }
  }

  // ----- Going on behind what is found at the start

  function WrapSkip(s: string): nat {
    if Placeholder(s) > 0 then Placeholder(s) else 1
  }

  function WrapHead(s: string): string
    requires s != ""
  {
    if Placeholder(s) > 0 then Tagged(s[..Placeholder(s)]) else s[..1]
  }

  lemma WrapStep(s: string)
    requires s != ""
    ensures Wrap(s) == WrapHead(s) + Wrap(s[WrapSkip(s)..])
  {
    assert s[..1] == [s[0]];
  }

  function UnwrapSkip(s: string): nat {
    if Wrapped(s) > 0 then Wrapped(s) + 7 else 1
  }

  function UnwrapHead(s: string): string
    requires s != ""
  {
    if Wrapped(s) > 0 then s[3..Wrapped(s) + 3] else s[..1]
  }

  lemma UnwrapStep(s: string)
    requires s != ""
    ensures Unwrap(s) == UnwrapHead(s) + Unwrap(s[UnwrapSkip(s)..])
  {
    assert s[..1] == [s[0]];
  }

  lemma Regroup(h: string, a: string, w: string, b: string)
    ensures h + (a + w + b) == h + a + w + b
  {
  }

  lemma WrapStepAround(a: string, p: string, b: string)
    requires a != "" && IsPlaceholder(p)
    ensures var s, n := a + p + b, WrapSkip(a);
            n <= |a| && WrapSkip(s) == n && WrapHead(s) == WrapHead(a) && s[n..] == a[n..] + p + b
  {
    NoOverlap(a, p, b);
    assert (a + p + b)[..WrapSkip(a)] == a[..WrapSkip(a)];
  }

  lemma {:induction false} WrapAround(a: string, p: string, b: string)
    requires IsPlaceholder(p)
    ensures Wrap(a + p + b) == Wrap(a) + Tagged(p) + Wrap(b)
  {
    if a == "" {
      PlaceholderMeans(p);
      assert a + p + b == p + b;
      WrapPlaceholder(p, b);
    } else {
      var n := WrapSkip(a);
      WrapStepAround(a, p, b);
      WrapAround(a[n..], p, b);
      WrapStep(a);
      WrapStep(a + p + b);
      Regroup(WrapHead(a), Wrap(a[n..]), Tagged(p), Wrap(b));
    }
  }

  /** A match of the tagged pattern is a tagged placeholder. */
  lemma MatchIsTagged(s: string)
    requires Wrapped(s) > 0
    ensures var n := Wrapped(s); IsPlaceholder(s[3..n + 3]) && s[..n + 7] == Tagged(s[3..n + 3])
  {
    var n := Wrapped(s);
    MatchIsPlaceholder(s[3..]);
    assert s[3..][..n] == s[3..n + 3];
    assert s[n + 3..][..4] == s[n + 3..n + 7] == "</x>";
    assert s[..n + 7] == s[..3] + s[3..n + 3] + s[n + 3..n + 7];
  }

  lemma TaggedIsMatch(p: string, b: string)
    requires IsPlaceholder(p)
    ensures Wrapped(Tagged(p) + b) == |p|
  {
    PlaceholderMeans(p);
    var w := Tagged(p) + b;
    assert w[3..] == p + ("</x>" + b);
    WrappedIsFound(w, p, "</x>" + b);
  }

  lemma BracketsOfTagged(q: string)
    requires IsPlaceholder(q)
    ensures forall k | 0 < k < |q| + 6 && Tagged(q)[k] == '<' :: Tagged(q)[k + 1] == '/'
  {
    var w := Tagged(q);
    forall k | 0 < k < |q| + 6 && w[k] == '<' ensures w[k + 1] == '/' {
      assert forall i | 0 <= i < |q| :: w[i + 3] == q[i] && q[i] != '<';
    }
  }

  lemma TaggedStopsBefore(s: string, k: nat)
    requires 0 < k < |s| - 1 && s[k] == '<' && s[k + 1] == 'x'
    ensures Wrapped(s) > 0 ==> Wrapped(s) + 7 <= k
  {
    var n := Wrapped(s);
    if n > 0 {
      MatchIsTagged(s);
      BracketsOfTagged(s[3..n + 3]);
      assert forall i | 0 <= i < n + 7 :: s[i] == s[..n + 7][i];
      assert s[..n + 7][n + 6] == '>';
    }
  }

  lemma TaggedAgain(a: string, w: string, b: string)
    requires Wrapped(a) > 0
    ensures Wrapped(a + w + b) == Wrapped(a) && Wrapped(a) + 7 <= |a|
  {
    var n := Wrapped(a);
    MatchIsTagged(a);
    TaggedIsMatch(a[3..n + 3], a[n + 7..] + w + b);
    assert a + w + b == a[..n + 7] + (a[n + 7..] + w + b);
  }

  lemma TaggedBefore(a: string, w: string, b: string)
    requires Wrapped(a + w + b) > 0 && Wrapped(a + w + b) + 7 <= |a|
    ensures Wrapped(a) == Wrapped(a + w + b)
  {
    var s := a + w + b;
    var n := Wrapped(s);
    MatchIsTagged(s);
    TaggedIsMatch(s[3..n + 3], a[n + 7..]);
    assert s[..n + 7] == a[..n + 7] && a == a[..n + 7] + a[n + 7..];
  }

  /** A tagged placeholder does not begin inside another one. */
  lemma NoTaggedOverlap(a: string, p: string, b: string)
    requires a != "" && IsPlaceholder(p)
    ensures Wrapped(a + Tagged(p) + b) == Wrapped(a) && (Wrapped(a) > 0 ==> Wrapped(a) + 7 <= |a|)
  {
    var s := a + Tagged(p) + b;
    assert s[|a|] == '<' && s[|a| + 1] == 'x';
    TaggedStopsBefore(s, |a|);
    if Wrapped(s) > 0 {
      TaggedBefore(a, Tagged(p), b);
    }
    if Wrapped(a) > 0 {
      TaggedAgain(a, Tagged(p), b);
    }
  }

  lemma UnwrapStepAround(a: string, p: string, b: string)
    requires a != "" && IsPlaceholder(p)
    ensures var s, n := a + Tagged(p) + b, UnwrapSkip(a);
            n <= |a| && UnwrapSkip(s) == n && UnwrapHead(s) == UnwrapHead(a) && s[n..] == a[n..] + Tagged(p) + b
  {
    var s := a + Tagged(p) + b;
    NoTaggedOverlap(a, p, b);
    if Wrapped(a) > 0 {
      assert s[3..Wrapped(a) + 3] == a[3..Wrapped(a) + 3];
    }
    assert s[..1] == a[..1];
  }

  lemma {:induction false} UnwrapAround(a: string, p: string, b: string)
    requires IsPlaceholder(p)
    ensures Unwrap(a + Tagged(p) + b) == Unwrap(a) + p + Unwrap(b)
    decreases |a|
  {
    var w := Tagged(p);
    if a == "" {
      assert a + w + b == "<x>" + p + "</x>" + b;
      PlaceholderMeans(p);
      UnwrapOne("<x>", p, "</x>", b);
    } else {
      var n := UnwrapSkip(a);
      UnwrapStepAround(a, p, b);
      UnwrapAround(a[n..], p, b);
      UnwrapStep(a);
      UnwrapStep(a + w + b);
      Regroup(UnwrapHead(a), Unwrap(a[n..]), p, Unwrap(b));
    }
  }

  // ----- Replaces, escapes and coercion go by what is around a placeholder

  lemma PatternStopsBefore(a: string, p: string, b: string, pattern: string)
    requires p != "" && p[0] !in pattern
    ensures pattern <= a + p + b <==> pattern <= a
  {
    var s := a + p + b;
    assert s[|a|] == p[0];
    if pattern <= s {
      assert forall i | 0 <= i < |pattern| :: s[i] == pattern[i] && pattern[i] in pattern;
    }
  }

  /** A global replace leaves text alone that has no character of the pattern, and works on both sides of it. */
  lemma {:induction false} ReplaceAround(a: string, p: string, b: string, pattern: string, replacement: string)
    requires pattern != "" && p != "" && forall c | c in p :: c !in pattern
    ensures ReplaceAll(a + p + b, pattern, replacement)
         == ReplaceAll(a, pattern, replacement) + p + ReplaceAll(b, pattern, replacement)
    decreases |a|
  {
    var s := a + p + b;
    assert p[0] in p;
    PatternStopsBefore(a, p, b, pattern);
    if a == "" {
      assert s == p + b && pattern[0] in pattern && forall i | 0 <= i < |p| :: p[i] in p;
      ReplaceBehind(p, b, pattern, replacement);
    } else {
      var n := if pattern <= a then |pattern| else 1;
      assert s[n..] == a[n..] + p + b;
      ReplaceAround(a[n..], p, b, pattern, replacement);
    }
  }

  lemma {:induction false} EscapeOfConcat(a: string, b: string, which: set<char>)
    ensures Escape(a + b, which) == Escape(a, which) + Escape(b, which)
  {
    if a == "" {
      assert a + b == b;
    } else {
      assert (a + b)[1..] == a[1..] + b;
      EscapeOfConcat(a[1..], b, which);
    }
  }

  lemma {:induction false} EscapeOfOthers(p: string, which: set<char>)
    requires forall c | c in p :: c !in which
    ensures Escape(p, which) == p
  {
    if p != "" {
      assert p[0] in p && forall c | c in p[1..] :: c in p;
      EscapeOfOthers(p[1..], which);
    }
  }

  lemma PlaceholderCharacters(p: string)
    requires IsPlaceholder(p)
    ensures forall c | c in p :: c in "{0123456789}"
  {
    forall c | c in p ensures c in "{0123456789}" {
      var i :| 0 <= i < |p| && p[i] == c;
      assert 0 < i < |p| - 1 ==> p[i] in "0123456789";
    }
  }

  lemma EscapeAround(a: string, p: string, b: string)
    requires IsPlaceholder(p)
    ensures var which := {'&', '<', '>'}; Escape(a + p + b, which) == Escape(a, which) + p + Escape(b, which)
  {
    var which := {'&', '<', '>'};
    PlaceholderCharacters(p);
    EscapeOfConcat(a + p, b, which);
    EscapeOfConcat(a, p, which);
    EscapeOfOthers(p, which);
  }

  /** The service gets the placeholder tagged. */
  lemma PlaceholderIsTagged(a: string, p: string, b: string)
    requires IsPlaceholder(p)
    ensures var which := {'&', '<', '>'};
            AddIgnoreTags(a + p + b) == Wrap(Escape(a, which)) + Tagged(p) + Wrap(Escape(b, which))
  {
    var which := {'&', '<', '>'};
    AddIgnoreTagsEscapesAll(a + p + b);
    EscapeAround(a, p, b);
    WrapAround(Escape(a, which), p, Escape(b, which));
  }

  lemma CoerceAround(a: string, w: string, b: string)
    requires forall c | c in w :: !IsCoerced(c)
    ensures CoerceTranslation(a + w + b) == CoerceTranslation(a) + w + CoerceTranslation(b)
  {
    var s, r := a + w + b, CoerceTranslation(a) + w + CoerceTranslation(b);
    CoercedCharacterByCharacter(s);
    CoercedCharacterByCharacter(a);
    CoercedCharacterByCharacter(b);
    forall i | 0 <= i < |s| ensures CoerceTranslation(s)[i] == r[i] {
      if i < |a| {
        assert s[i] == a[i];
      } else if i < |a| + |w| {
        assert s[i] == w[i - |a|] && w[i - |a|] in w;
      } else {
        assert s[i] == b[i - |a| - |w|];
      }
    }
  }

  lemma TaggedIsNotCoerced(p: string)
    requires IsPlaceholder(p)
    ensures forall c | c in Tagged(p) :: !IsCoerced(c)
  {
    PlaceholderCharacters(p);
  }

  lemma UnescapedAround(a: string, p: string, b: string, pattern: string, replacement: string)
    requires IsPlaceholder(p) && pattern in {"&lt;", "&gt;", "&amp;"}
    ensures ReplaceAll(a + p + b, pattern, replacement)
         == ReplaceAll(a, pattern, replacement) + p + ReplaceAll(b, pattern, replacement)
  {
    PlaceholderCharacters(p);
    ReplaceAround(a, p, b, pattern, replacement);
  }

  lemma RemovedAround(a: string, p: string, b: string)
    requires IsPlaceholder(p)
    ensures RemoveIgnoreTags(a + Tagged(p) + b) == RemoveIgnoreTags(a) + p + RemoveIgnoreTags(b)
  {
    UnwrapAround(a, p, b);
    var u, v := Unwrap(a), Unwrap(b);
    UnescapedAround(u, p, v, "&lt;", "<");
    u, v := ReplaceAll(u, "&lt;", "<"), ReplaceAll(v, "&lt;", "<");
    UnescapedAround(u, p, v, "&gt;", ">");
    u, v := ReplaceAll(u, "&gt;", ">"), ReplaceAll(v, "&gt;", ">");
    UnescapedAround(u, p, v, "&amp;", "&");
  }

  /** Every placeholder of a text is in its translation. */
  lemma PlaceholderSurvives(f: string -> string, x: string, p: string)
    requires KeepsTagged(f) && IsPlaceholder(p) && Contains(x, p)
    ensures Contains(RemoveIgnoreTags(CoerceTranslation(f(AddIgnoreTags(x)))), p)
  {
    var a, b :| x == a + p + b;
    var which := {'&', '<', '>'};
    PlaceholderIsTagged(a, p, b);
    var sent := AddIgnoreTags(x);
    assert sent == Wrap(Escape(a, which)) + Tagged(p) + Wrap(Escape(b, which));
    assert Contains(f(sent), Tagged(p));
    var u, v :| f(sent) == u + Tagged(p) + v;
    TaggedIsNotCoerced(p);
    CoerceAround(u, Tagged(p), v);
    RemovedAround(CoerceTranslation(u), p, CoerceTranslation(v));
  }
}
