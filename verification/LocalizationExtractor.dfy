/** Trie insertion of extracted texts: `insert` of `localization-extractor.ts` and its use in `extractFromFile`. */
module LocalizationExtractor {
  import opened Wrappers
  import opened Localizations
  import opened Text

  /** The two exceptions of `insert`; a string entry is reported with the path where it was met. */
  datatype InsertError = MultipleKeys(key: string) | StringEntry(path: string)

  datatype InsertResult = Inserted(localization: Localization) | Failed(error: InsertError)

  /** What `insert` does to the object `o`, for the key split into `parts`, `done` of them already used. */
  function InsertParts(o: Localization, parts: seq<string>, done: seq<string>, value: string): InsertResult
    requires parts != []
    decreases |parts|
  {
    var entry := o.Get(parts[0]);
    if |parts| == 1 then
      if entry.Some? && entry.value.Sub? then Failed(MultipleKeys(Join(done + parts, "/")))
      else Inserted(o.Set(parts[0], Text(value)))
    else if entry.Some? && entry.value.Text? then Failed(StringEntry(Join(done + [parts[0]], "/")))
    else
      match InsertParts(o.Child(parts[0]), parts[1..], done + [parts[0]], value)
      case Inserted(child) => Inserted(o.Set(parts[0], Sub(child)))
      case failed => failed
  }

  function Insert(o: Localization, key: string, value: string): InsertResult {
    InsertParts(o, Split(key, '/'), [], value)
  }

  /** The text under a key, the keys being joined with slashes. */
  function TextAt(o: Localization, key: string): Option<string> {
    o.At(Split(key, '/'))
  }

  /** What insertion builds: no key twice, no slash in a key, and no empty object below the root. */
  ghost predicate Trie(o: Localization) {
    match o
    case Empty => true
    case Prop(key, value, rest) =>
      && !rest.Has(key) && '/' !in key && Trie(rest)
      && (value.Sub? ==> value.entries != Empty && Trie(value.entries))
  }

  lemma {:induction false} TrieIsPlain(o: Localization)
    requires Trie(o)
    ensures o.Plain()
  {
    if o.Prop? {
      if o.value.Sub? {
        TrieIsPlain(o.value.entries);
      }
      TrieIsPlain(o.rest);
    }
  }

  lemma {:induction false} TrieSet(o: Localization, k: string, v: Value)
    requires Trie(o) && '/' !in k && (v.Sub? ==> v.entries != Empty && Trie(v.entries))
    ensures Trie(o.Set(k, v))
  {
    if o.Prop? {
      TrieSet(o.rest, k, v);
      GetSet(o.rest, k, v, o.key);
    }
  }

  lemma {:induction false} TrieGet(o: Localization, k: string)
    requires Trie(o)
    ensures Trie(o.Child(k)) && (o.Has(k) && o.Get(k).value.Sub? ==> o.Child(k) != Empty)
  {
    if o.Prop? && o.key != k {
      TrieGet(o.rest, k);
    }
  }

  lemma {:induction false} TrieHasText(o: Localization) returns (path: seq<string>)
    requires Trie(o) && o != Empty
    ensures path != [] && o.At(path).Some? && forall p | p in path :: '/' !in p
  {
    path := [o.key];
    if o.value.Sub? {
      var rest := TrieHasText(o.value.entries);
      path := path + rest;
      assert path[1..] == rest;
    }
  }

  ghost predicate Comparable(p: seq<string>, q: seq<string>) {
    ProperPrefix(p, q) || ProperPrefix(q, p)
  }

  /** A successful insertion is a map update. */
  lemma {:induction false} InsertUpdates(o: Localization, parts: seq<string>, done: seq<string>, value: string,
                                         path: seq<string>)
    requires parts != [] && Trie(o) && InsertParts(o, parts, done, value).Inserted?
    requires forall p | p in parts :: '/' !in p
    ensures var r := InsertParts(o, parts, done, value).localization;
            && Trie(r) && r != Empty
            && r.At(path) == if path == parts then Some(value) else o.At(path)
    decreases |parts|
  {
    var k := parts[0];
    TrieGet(o, k);
    var r := InsertParts(o, parts, done, value).localization;
    if |parts| == 1 {
      assert parts == [k];
      TrieSet(o, k, Text(value));
    } else {
      var child := InsertParts(o.Child(k), parts[1..], done + [k], value).localization;
      InsertUpdates(o.Child(k), parts[1..], done + [k], value, if path == [] then [] else path[1..]);
      TrieSet(o, k, Sub(child));
      assert parts == [k] + parts[1..];
    }
    if path != [] {
      GetSet(o, k, if |parts| == 1 then Text(value) else Sub(r.Child(k)), path[0]);
      assert path == [path[0]] + path[1..];
      if |parts| > 1 {
        GetSet(o, k, Sub(InsertParts(o.Child(k), parts[1..], done + [k], value).localization), path[0]);
      }
    }
  }

  /** An insertion fails only because of an existing key, which is returned. */
  lemma {:induction false} FailureHasReason(o: Localization, parts: seq<string>, done: seq<string>, value: string)
    returns (path: seq<string>)
    requires parts != [] && Trie(o) && InsertParts(o, parts, done, value).Failed?
    requires forall p | p in parts :: '/' !in p
    ensures o.At(path).Some? && forall p | p in path :: '/' !in p
    ensures var e := InsertParts(o, parts, done, value).error;
            if e.MultipleKeys? then e.key == Join(done + parts, "/") && ProperPrefix(parts, path)
            else e.path == Join(done + path, "/") && ProperPrefix(path, parts)
    decreases |parts|
  {
    var k := parts[0];
    TrieGet(o, k);
    if |parts| == 1 {
      var rest := TrieHasText(o.Child(k));
      path := [k] + rest;
      assert path[1..] == rest && parts == [k];
    } else if o.Has(k) && o.Get(k).value.Text? {
      path := [k];
      assert parts == [k] + parts[1..];
    } else {
      var rest := FailureHasReason(o.Child(k), parts[1..], done + [k], value);
      path := [k] + rest;
      assert path[1..] == rest && parts == [k] + parts[1..];
      assert done + [k] + rest == done + path && done + [k] + parts[1..] == done + parts;
    }
  }

  /** An existing key that is a proper prefix or a proper extension makes the insertion fail. */
  lemma {:induction false} ComparableKeyFails(o: Localization, parts: seq<string>, done: seq<string>, value: string,
                                              path: seq<string>)
    requires parts != [] && o.At(path).Some? && Comparable(path, parts)
    ensures InsertParts(o, parts, done, value).Failed?
    decreases |parts|
  {
    var k := parts[0];
    assert path[0] == k;
    if |parts| > 1 && |path| > 1 {
      ComparableKeyFails(o.Child(k), parts[1..], done + [k], value, path[1..]);
    }
  }

  /** What the exception says about the existing keys. */
  ghost predicate Reason(o: Localization, key: string, error: InsertError) {
    match error
    case MultipleKeys(named) => named == key && HasLonger(o, key)
    case StringEntry(named) => TextAt(o, named).Some? && named + "/" <= key
  }

  ghost predicate HasLonger(o: Localization, key: string) {
    exists k :: TextAt(o, k).Some? && key + "/" <= k
  }

  /**
   * Insertion refines map update. It fails exactly when an existing key is a proper `/`-prefix or a
   * proper extension of the new one; which of the two decides the exception.
   */
  lemma InsertRefinesMapUpdate(o: Localization, key: string, value: string)
    requires Trie(o)
    ensures Insert(o, key, value).Failed? <==> exists k :: TextAt(o, k).Some? && (k + "/" <= key || key + "/" <= k)
    ensures Insert(o, key, value).Inserted? ==>
              var r := Insert(o, key, value).localization;
              Trie(r) && forall k :: TextAt(r, k) == if k == key then Some(value) else TextAt(o, k)
    ensures Insert(o, key, value).Failed? ==> Reason(o, key, Insert(o, key, value).error)
  {
    var parts := Split(key, '/');
    PiecesHaveNoSeparator(key, '/');
    match Insert(o, key, value) {
      case Inserted(r) =>
        forall k ensures TextAt(r, k) == if k == key then Some(value) else TextAt(o, k) {
          InsertUpdates(o, parts, [], value, Split(k, '/'));
          if Split(k, '/') == parts {
            SplitIsInjective(k, key, '/');
          }
        }
        InsertUpdates(o, parts, [], value, []);
        forall k | TextAt(o, k).Some? ensures !(k + "/" <= key || key + "/" <= k) {
          PrefixOfPieces(k, key, '/');
          PrefixOfPieces(key, k, '/');
          if k + "/" <= key || key + "/" <= k {
            ComparableKeyFails(o, parts, [], value, Split(k, '/'));
          }
        }
      case Failed(error) =>
        var path := FailureHasReason(o, parts, [], value);
        var k := Join(path, "/");
        JoinSplit(key, '/');
        assert [] + path == path && [] + parts == parts;
        SplitJoin(path, '/');
        assert TextAt(o, k).Some?;
        PrefixOfPieces(k, key, '/');
        PrefixOfPieces(key, k, '/');
        assert error.MultipleKeys? ==> key + "/" <= k;
    }
  }

  ghost function Lift(root: Localization, cursor: seq<string>, r: InsertResult): InsertResult {
    match r
    case Inserted(o) => Inserted(root.Graft(cursor, o))
    case Failed(e) => r
  }

  /** Walking into (and, if need be, creating) the object of the next part leaves the outcome as it is. */
  lemma WalkInto(root: Localization, cursor: seq<string>, parts: seq<string>, done: seq<string>, value: string)
    requires |parts| > 1
    requires var entry := root.Subtree(cursor).Get(parts[0]); entry.None? || entry.value.Sub?
    ensures var current, k := root.Subtree(cursor), parts[0];
            var root' := root.Graft(cursor, current.Set(k, Sub(current.Child(k))));
            && root'.Subtree(cursor + [k]) == current.Child(k)
            && Lift(root, cursor, InsertParts(current, parts, done, value))
               == Lift(root', cursor + [k], InsertParts(current.Child(k), parts[1..], done + [k], value))
  {
    var current, k := root.Subtree(cursor), parts[0];
    var child := current.Child(k);
    var changed := current.Set(k, Sub(child));
    var root' := root.Graft(cursor, changed);
    SubtreeGraft(root, cursor, changed);
    GetSet(current, k, Sub(child), k);
    GraftLonger(root', cursor, k, child);
    match InsertParts(child, parts[1..], done + [k], value) {
      case Inserted(c) =>
        GraftLonger(root', cursor, k, c);
        SetTwice(current, k, Sub(child), Sub(c));
        GraftTwice(root, cursor, changed, current.Set(k, Sub(c)));
      case Failed(_) =>
    }
  }

  /** The root object; `insert` walks into it and changes it in place. */
  class Extraction {
    var localization: Localization

    constructor ()
      ensures localization == Empty
    {
      localization := Empty;
    }

    /** `insert`: `cursor` is the path of the object that the source's `localization` variable holds. */
    method InsertInPlace(key: string, value: string) returns (error: Option<InsertError>)
      modifies this
      ensures var r := Insert(old(localization), key, value);
              if r.Inserted? then error.None? && localization == r.localization
              else error == Some(r.error) && localization == old(localization)
    {
      var parts := Split(key, '/');
      JoinSplit(key, '/');
      var cursor: seq<string> := [];
      ghost var first := localization;
      assert parts[..0] == [] && parts[0..] == parts;
      for i := 0 to |parts| - 1
        invariant cursor == parts[..i]
        invariant InsertParts(first, parts, [], value)
               == Lift(localization, cursor, InsertParts(localization.Subtree(cursor), parts[i..], parts[..i], value))
        invariant (localization == first && first.Leads(cursor)) || localization.Subtree(cursor) == Empty
      {
        var part := parts[i];
        var current := localization.Subtree(cursor);
        var entry := current.Get(part);
        if entry.Some? && entry.value.Text? {
          assert parts[..i] + [part] == parts[..i + 1];
          return Some(StringEntry(Join(parts[..i + 1], "/")));
        }
        WalkInto(localization, cursor, parts[i..], parts[..i], value);
        assert parts[i..][1..] == parts[i + 1..] && parts[..i] + [part] == parts[..i + 1];
        LeadsLonger(localization, cursor, part);
        if entry.Some? {
          SetSame(current, part, entry.value);
          if localization == first {
            GraftSame(first, cursor);
          }
        }
        localization := localization.Graft(cursor, current.Set(part, if entry.None? then Sub(Empty) else entry.value));
        cursor := cursor + [part];
      }
      var part := parts[|parts| - 1];
      var current := localization.Subtree(cursor);
      var entry := current.Get(part);
      assert parts[|parts| - 1..] == [part] && parts[..|parts| - 1] + [part] == parts;
      if entry.Some? && entry.value.Sub? {
        return Some(MultipleKeys(key));
      }
      localization := localization.Graft(cursor, current.Set(part, Text(value)));
      error := None;
    }

    /** The loop of `extractFromFile` over the extracted pairs: an error is recorded, the rest goes on. */
    method InsertAll(pairs: seq<(string, string)>) returns (errors: seq<InsertError>)
      requires localization == Empty
      modifies this
      ensures localization == InsertedAll(pairs).0 && errors == InsertedAll(pairs).1
    {
      errors := [];
      for i := 0 to |pairs|
        invariant (localization, errors) == InsertedAll(pairs[..i])
      {
        assert pairs[..i + 1][..i] == pairs[..i];
        var error := InsertInPlace(pairs[i].0, pairs[i].1);
        if error.Some? {
          errors := errors + [error.value];
        }
      }
      assert pairs[..|pairs|] == pairs;
    }
  }

  function InsertedAll(pairs: seq<(string, string)>): (Localization, seq<InsertError>) {
    if pairs == [] then (Empty, [])
    else
      var (o, errors) := InsertedAll(pairs[..|pairs| - 1]);
      var (key, value) := pairs[|pairs| - 1];
      match Insert(o, key, value)
      case Inserted(r) => (r, errors)
      case Failed(e) => (o, errors + [e])
  }

  /**
   * Extraction as a map of keys: each text comes from a pair with that key, and no accepted key is
   * a `/`-prefix of another.
   */
  lemma {:induction false} ExtractionIsPrefixFree(pairs: seq<(string, string)>)
    ensures var o := InsertedAll(pairs).0;
            && Trie(o)
            && (forall k, l | TextAt(o, k).Some? && TextAt(o, l).Some? :: !(k + "/" <= l))
            && (forall k | TextAt(o, k).Some? :: (k, TextAt(o, k).value) in pairs)
  {
    if pairs != [] {
      var init, last := pairs[..|pairs| - 1], pairs[|pairs| - 1];
      ExtractionIsPrefixFree(init);
      InsertRefinesMapUpdate(InsertedAll(init).0, last.0, last.1);
      assert pairs == init + [last];
    }
  }

  /** The tree when the pair at `i` comes. */
  function TreeBefore(pairs: seq<(string, string)>, i: nat): Localization
    requires i <= |pairs|
  {
    InsertedAll(pairs[..i]).0
  }

  ghost predicate Excluded(o: Localization, key: string) {
    exists k :: TextAt(o, k).Some? && (k + "/" <= key || key + "/" <= k)
  }

  predicate Fails(pairs: seq<(string, string)>, i: nat)
    requires i < |pairs|
  {
    Insert(TreeBefore(pairs, i), pairs[i].0, pairs[i].1).Failed?
  }

  /** The indices of the pairs that are not inserted. */
  function Rejected(pairs: seq<(string, string)>): (rejected: seq<nat>)
    ensures forall i: nat :: i in rejected <==> i < |pairs| && Fails(pairs, i)
    ensures forall k, l | 0 <= k < l < |rejected| :: rejected[k] < rejected[l]
  {
    if pairs == [] then []
    else
      var n := |pairs| - 1;
      var before := Rejected(pairs[..n]);
      assert forall k | 0 <= k < |before| :: before[k] in before;
      assert forall i: nat | i < n :: Fails(pairs, i) <==> Fails(pairs[..n], i) by {
        assert forall i: nat | i < n :: pairs[..n][..i] == pairs[..i];
      }
      if Fails(pairs, n) then before + [n] else before
  }

  lemma {:induction false} ErrorsOfRejected(pairs: seq<(string, string)>)
    ensures var errors, rejected := InsertedAll(pairs).1, Rejected(pairs);
            && |errors| == |rejected|
            && forall k | 0 <= k < |errors| ::
                 var i := rejected[k];
                 i < |pairs| && Insert(TreeBefore(pairs, i), pairs[i].0, pairs[i].1) == Failed(errors[k])
  {
    if pairs != [] {
      var init := pairs[..|pairs| - 1];
      ErrorsOfRejected(init);
      var rejected := Rejected(init);
      forall k | 0 <= k < |rejected|
        ensures var i := rejected[k];
                i < |init| && Insert(TreeBefore(pairs, i), pairs[i].0, pairs[i].1) == Failed(InsertedAll(init).1[k])
      {
        assert rejected[k] in rejected && init[..rejected[k]] == pairs[..rejected[k]];
      }
    }
  }

  /** One pair: a map update, unless a key that is there already excludes its key. */
  lemma PairIsUpdateUnlessExcluded(pairs: seq<(string, string)>, i: nat)
    requires i < |pairs|
    ensures Fails(pairs, i) <==> Excluded(TreeBefore(pairs, i), pairs[i].0)
    ensures Fails(pairs, i) ==>
              && TreeBefore(pairs, i + 1) == TreeBefore(pairs, i)
              && Reason(TreeBefore(pairs, i), pairs[i].0, Insert(TreeBefore(pairs, i), pairs[i].0, pairs[i].1).error)
    ensures !Fails(pairs, i) ==>
              forall k :: TextAt(TreeBefore(pairs, i + 1), k)
                          == if k == pairs[i].0 then Some(pairs[i].1) else TextAt(TreeBefore(pairs, i), k)
  {
    var next := pairs[..i + 1];
    ExtractionIsPrefixFree(pairs[..i]);
    InsertRefinesMapUpdate(TreeBefore(pairs, i), pairs[i].0, pairs[i].1);
    assert next[..|next| - 1] == pairs[..i] && next[|next| - 1] == pairs[i];
    match Insert(TreeBefore(pairs, i), pairs[i].0, pairs[i].1) {
      case Inserted(r) => assert TreeBefore(pairs, i + 1) == r;
      case Failed(_) =>
    }
  }

  /**
   * The errors are, in order, those of exactly the pairs whose key is excluded by a key that is there
   * already, each being the exception that says which.
   */
  lemma ErrorsAreTheExcluded(pairs: seq<(string, string)>)
    ensures var errors, rejected := InsertedAll(pairs).1, Rejected(pairs);
            && |rejected| == |errors|
            && (forall k | 0 <= k < |errors| ::
                  && rejected[k] < |pairs|
                  && Reason(TreeBefore(pairs, rejected[k]), pairs[rejected[k]].0, errors[k]))
            && (forall i: nat | i < |pairs| :: i in rejected <==> Excluded(TreeBefore(pairs, i), pairs[i].0))
  {
    ErrorsOfRejected(pairs);
    forall i: nat | i < |pairs|
      ensures i in Rejected(pairs) <==> Excluded(TreeBefore(pairs, i), pairs[i].0)
      ensures Fails(pairs, i) ==>
                Reason(TreeBefore(pairs, i), pairs[i].0, Insert(TreeBefore(pairs, i), pairs[i].0, pairs[i].1).error)
    {
      PairIsUpdateUnlessExcluded(pairs, i);
    }
  }

  /** Sorting the extracted tree before it is written keeps every key and its text. */
  lemma SortingKeepsTheExtraction(pairs: seq<(string, string)>, key: string)
    ensures TextAt(SortLocalization(InsertedAll(pairs).0), key) == TextAt(InsertedAll(pairs).0, key)
  {
    ExtractionIsPrefixFree(pairs);
    TrieIsPlain(InsertedAll(pairs).0);
    SortKeepsFlattening(InsertedAll(pairs).0, Split(key, '/'));
  }

  ghost predicate InTheWay(o: Localization, key: string) {
    exists k :: TextAt(o, k).Some? && (k == key || k + "/" <= key || key + "/" <= k)
  }

  /** No pair is dropped without cause: its key, or an accepted key that excludes it, is in the result. */
  lemma {:induction false} EveryPairIsAcceptedOrExcluded(pairs: seq<(string, string)>)
    ensures forall p | p in pairs :: InTheWay(InsertedAll(pairs).0, p.0)
  {
    if pairs != [] {
      var init, last := pairs[..|pairs| - 1], pairs[|pairs| - 1];
      var before, after := InsertedAll(init).0, InsertedAll(pairs).0;
      EveryPairIsAcceptedOrExcluded(init);
      ExtractionIsPrefixFree(init);
      InsertRefinesMapUpdate(before, last.0, last.1);
      forall p | p in pairs ensures InTheWay(after, p.0) {
        if p in init {
          assert InTheWay(before, p.0);
          var k :| TextAt(before, k).Some? && (k == p.0 || k + "/" <= p.0 || p.0 + "/" <= k);
          assert TextAt(after, k).Some?;
        } else {
          assert pairs == init + [last] && p == last;
          assert after == before || TextAt(after, last.0).Some?;
        }
      }
    }
  }
}
