/** `String.split` with a one-character separator, `Array.join`, and how they undo each other. */
module Text {
  function Split(s: string, c: char): (r: seq<string>)
    ensures |r| > 0
  {
    if s == "" then [""]
    else
      var rest := Split(s[1..], c);
      if s[0] == c then [""] + rest else [[s[0]] + rest[0]] + rest[1..]
  }

  function Join(parts: seq<string>, separator: string): string {
    if parts == [] then ""
    else if |parts| == 1 then parts[0]
    else parts[0] + separator + Join(parts[1..], separator)
  }

  lemma {:induction false} JoinSplit(s: string, c: char)
    ensures Join(Split(s, c), [c]) == s
  {
    if s != "" {
      JoinSplit(s[1..], c);
      var rest := Split(s[1..], c);
      if s[0] != c {
        assert ([[s[0]] + rest[0]] + rest[1..])[1..] == rest[1..];
      } else {
        assert ([""] + rest)[1..] == rest;
      }
    }
  }

  lemma {:induction false} SplitOne(s: string, c: char)
    requires c !in s
    ensures Split(s, c) == [s]
  {
    if s != "" {
      SplitOne(s[1..], c);
      assert s == [s[0]] + s[1..];
    }
  }

  lemma {:induction false} PiecesHaveNoSeparator(s: string, c: char)
    ensures forall p | p in Split(s, c) :: c !in p
  {
    if s != "" {
      PiecesHaveNoSeparator(s[1..], c);
      var rest := Split(s[1..], c);
      assert rest[0] in rest && forall p | p in rest[1..] :: p in rest;
    }
  }

  lemma {:induction false} SplitAtSeparator(a: string, b: string, c: char)
    ensures Split(a + [c] + b, c) == Split(a, c) + Split(b, c)
  {
    var s := a + [c] + b;
    if a == "" {
      assert s == [c] + b && s[1..] == b;
    } else {
      assert s[1..] == a[1..] + [c] + b;
      SplitAtSeparator(a[1..], b, c);
    }
  }

  lemma {:induction false} SplitJoin(parts: seq<string>, c: char)
    requires parts != [] && forall p | p in parts :: c !in p
    ensures Split(Join(parts, [c]), c) == parts
  {
    SplitOne(parts[0], c);
    if |parts| > 1 {
      SplitJoin(parts[1..], c);
      SplitAtSeparator(parts[0], Join(parts[1..], [c]), c);
    }
  }

  lemma SplitIsInjective(a: string, b: string, c: char)
    requires Split(a, c) == Split(b, c)
    ensures a == b
  {
    JoinSplit(a, c);
    JoinSplit(b, c);
  }

  lemma {:induction false} JoinConcat(a: seq<string>, b: seq<string>, separator: string)
    requires a != [] && b != []
    ensures Join(a + b, separator) == Join(a, separator) + separator + Join(b, separator)
  {
    if |a| == 1 {
      assert (a + b)[1..] == b;
    } else {
      assert (a + b)[1..] == a[1..] + b;
      JoinConcat(a[1..], b, separator);
      assert a[0] + separator + (Join(a[1..], separator) + separator + Join(b, separator))
          == a[0] + separator + Join(a[1..], separator) + separator + Join(b, separator);
    }
  }

  ghost predicate ProperPrefix<T>(a: seq<T>, b: seq<T>) {
    a < b
  }

  /** The pieces of `a` are the first of more pieces of `b` exactly when `a` and a separator begin `b`. */
  lemma PrefixOfPieces(a: string, b: string, c: char)
    ensures ProperPrefix(Split(a, c), Split(b, c)) <==> a + [c] <= b
  {
    var pa, pb := Split(a, c), Split(b, c);
    if a + [c] <= b {
      var rest := b[|a| + 1..];
      assert b == a + [c] + rest;
      SplitAtSeparator(a, rest, c);
      assert pb == pa + Split(rest, c);
    }
    if pa < pb {
      var rest := pb[|pa|..];
      assert pb == pa + rest;
      JoinConcat(pa, rest, [c]);
      JoinSplit(a, c);
      JoinSplit(b, c);
      assert b == a + [c] + Join(rest, [c]);
    }
  }

  /** Text that arrives later only changes the last piece. */
  lemma {:induction false} SplitAppend(a: string, b: string, c: char)
    ensures var pa := Split(a, c);
            Split(a + b, c) == pa[..|pa| - 1] + Split(pa[|pa| - 1] + b, c)
  {
    var pa := Split(a, c);
    var init, last := pa[..|pa| - 1], pa[|pa| - 1];
    PiecesHaveNoSeparator(a, c);
    assert last in pa;
    if init == [] {
      assert pa == [last];
      JoinSplit(a, c);
    } else {
      assert pa == init + [last];
      JoinConcat(init, [last], [c]);
      JoinSplit(a, c);
      var head := Join(init, [c]);
      assert a == head + [c] + last && a + b == head + [c] + (last + b);
      SplitAtSeparator(head, last + b, c);
      assert forall p | p in init :: p in pa;
      SplitJoin(init, c);
    }
  }
}
