/**
 * Localization objects of `common.ts`: nested JavaScript objects of texts, as ordered lists of
 * properties. An object that is reached through a path of keys is changed in place with `Graft`.
 */
module Localizations {
  import opened Wrappers

  datatype Value = Text(text: string) | Sub(entries: Localization)

  datatype Localization = Empty | Prop(key: string, value: Value, rest: Localization) {
    function Get(k: string): (r: Option<Value>)
      ensures r.Some? && r.value.Sub? ==> r.value.entries < this
    {
      match this
      case Empty => None
      case Prop(key, value, rest) => if key == k then Some(value) else rest.Get(k)
    }

    predicate Has(k: string) {
      Get(k).Some?
    }

    /** `o[k] = v`: an existing key keeps its place, a new one goes last. */
    function Set(k: string, v: Value): Localization {
      match this
      case Empty => Prop(k, v, Empty)
      case Prop(key, value, rest) => if key == k then Prop(k, v, rest) else Prop(key, value, rest.Set(k, v))
    }

    /** `delete o[k]` */
    function Delete(k: string): Localization {
      match this
      case Empty => Empty
      case Prop(key, value, rest) => if key == k then rest else Prop(key, value, rest.Delete(k))
    }

    /** `Object.keys(o)` */
    function Keys(): seq<string> {
      match this
      case Empty => []
      case Prop(key, value, rest) => [key] + rest.Keys()
    }

    /** No key occurs twice, at any level: true of every JavaScript object. */
    ghost predicate Plain() {
      match this
      case Empty => true
      case Prop(key, value, rest) => !rest.Has(key) && (value.Sub? ==> value.entries.Plain()) && rest.Plain()
    }

    /** The object under key `k`; a text or nothing counts as an empty object. */
    function Child(k: string): Localization {
      match Get(k)
      case Some(Sub(o)) => o
      case _ => Empty
    }

    /** The object that a path of keys leads to. */
    function Subtree(path: seq<string>): Localization
      decreases |path|
    {
      if path == [] then this else Child(path[0]).Subtree(path[1..])
    }

    /** Every key of the path is there and holds an object. */
    ghost predicate Leads(path: seq<string>)
      decreases |path|
    {
      path == [] || (Get(path[0]).Some? && Get(path[0]).value.Sub? && Child(path[0]).Leads(path[1..]))
    }

    /** Put `o` where the path leads. */
    function Graft(path: seq<string>, o: Localization): Localization
      decreases |path|
    {
      if path == [] then o else Set(path[0], Sub(Child(path[0]).Graft(path[1..], o)))
    }

    /** What there is at the end of a path of keys, a text on the way counting as an empty object. */
    function Entry(path: seq<string>): Option<Value>
      decreases |path|
    {
      if path == [] then None else if |path| == 1 then Get(path[0]) else Child(path[0]).Entry(path[1..])
    }

    /** The flattening: the text that the keys of `path` lead to. */
    function At(path: seq<string>): Option<string>
      decreases |path|
    {
      if path == [] then None
      else
        match Get(path[0])
        case None => None
        case Some(Text(t)) => if |path| == 1 then Some(t) else None
        case Some(Sub(o)) => o.At(path[1..])
    }
  }

  lemma {:induction false} GetSet(o: Localization, k: string, v: Value, n: string)
    ensures o.Set(k, v).Get(n) == if n == k then Some(v) else o.Get(n)
  {
    if o.Prop? {
      GetSet(o.rest, k, v, n);
    }
  }

  lemma {:induction false} GetDelete(o: Localization, k: string, n: string)
    requires o.Plain()
    ensures o.Delete(k).Get(n) == if n == k then None else o.Get(n)
  {
    if o.Prop? {
      GetDelete(o.rest, k, n);
    }
  }

  lemma {:induction false} PlainSet(o: Localization, k: string, v: Value)
    requires o.Plain() && (v.Sub? ==> v.entries.Plain())
    ensures o.Set(k, v).Plain()
  {
    if o.Prop? {
      PlainSet(o.rest, k, v);
      GetSet(o.rest, k, v, o.key);
    }
  }

  lemma {:induction false} PlainDelete(o: Localization, k: string)
    requires o.Plain()
    ensures o.Delete(k).Plain()
  {
    if o.Prop? {
      PlainDelete(o.rest, k);
      GetDelete(o.rest, k, o.key);
    }
  }

  lemma {:induction false} PlainGet(o: Localization, k: string)
    requires o.Plain()
    ensures o.Child(k).Plain()
  {
    if o.Prop? && o.key != k {
      PlainGet(o.rest, k);
    }
  }

  lemma {:induction false} SetSame(o: Localization, k: string, v: Value)
    requires o.Get(k) == Some(v)
    ensures o.Set(k, v) == o
  {
    if o.key != k {
      SetSame(o.rest, k, v);
    }
  }

  lemma {:induction false} SetTwice(o: Localization, k: string, v: Value, w: Value)
    ensures o.Set(k, v).Set(k, w) == o.Set(k, w)
  {
    if o.Prop? {
      SetTwice(o.rest, k, v, w);
    }
  }

  lemma {:induction false} KeysHas(o: Localization, k: string)
    ensures k in o.Keys() <==> o.Has(k)
  {
    if o.Prop? {
      KeysHas(o.rest, k);
    }
  }

  lemma {:induction false} SubtreeGraft(o: Localization, path: seq<string>, s: Localization)
    ensures o.Graft(path, s).Subtree(path) == s
    decreases |path|
  {
    if path != [] {
      SubtreeGraft(o.Child(path[0]), path[1..], s);
      GetSet(o, path[0], Sub(o.Child(path[0]).Graft(path[1..], s)), path[0]);
    }
  }

  lemma {:induction false} GraftTwice(o: Localization, path: seq<string>, s: Localization, t: Localization)
    ensures o.Graft(path, s).Graft(path, t) == o.Graft(path, t)
    decreases |path|
  {
    if path != [] {
      var v, w := Sub(o.Child(path[0]).Graft(path[1..], s)), Sub(o.Child(path[0]).Graft(path[1..], t));
      GraftTwice(o.Child(path[0]), path[1..], s, t);
      GetSet(o, path[0], v, path[0]);
      SetTwice(o, path[0], v, w);
    }
  }

  /** Changing an object is changing one property of the object that holds it. */
  lemma {:induction false} GraftLonger(o: Localization, path: seq<string>, k: string, s: Localization)
    ensures o.Graft(path + [k], s) == o.Graft(path, o.Subtree(path).Set(k, Sub(s)))
    ensures o.Subtree(path + [k]) == o.Subtree(path).Child(k)
    decreases |path|
  {
    if path == [] {
      assert path + [k] == [k];
      assert [k][1..] == [];
    } else {
      assert (path + [k])[1..] == path[1..] + [k];
      GraftLonger(o.Child(path[0]), path[1..], k, s);
    }
  }

  lemma {:induction false} GraftSame(o: Localization, path: seq<string>)
    requires o.Leads(path)
    ensures o.Graft(path, o.Subtree(path)) == o
    decreases |path|
  {
    if path != [] {
      GraftSame(o.Child(path[0]), path[1..]);
      SetSame(o, path[0], Sub(o.Child(path[0])));
    }
  }

  lemma {:induction false} GraftLeads(o: Localization, path: seq<string>, s: Localization)
    ensures o.Graft(path, s).Leads(path)
    decreases |path|
  {
    if path != [] {
      GraftLeads(o.Child(path[0]), path[1..], s);
      GetSet(o, path[0], Sub(o.Child(path[0]).Graft(path[1..], s)), path[0]);
    }
  }

  lemma {:induction false} LeadsLonger(o: Localization, path: seq<string>, k: string)
    ensures o.Leads(path + [k]) <==> o.Leads(path) && o.Subtree(path).Get(k).Some? && o.Subtree(path).Get(k).value.Sub?
    decreases |path|
  {
    if path == [] {
      assert path + [k] == [k] && [k][1..] == [];
    } else {
      assert (path + [k])[1..] == path[1..] + [k];
      LeadsLonger(o.Child(path[0]), path[1..], k);
    }
  }

  // ----- sortLocalization

  /** The default order of `Array.prototype.sort` on strings. */
  predicate Before(a: string, b: string) {
    if b == "" then false
    else if a == "" then true
    else a[0] < b[0] || (a[0] == b[0] && Before(a[1..], b[1..]))
  }

  /** A string comes before its extensions, and otherwise the first character that differs decides. */
  lemma {:induction false} BeforeIsLexicographic(a: string, b: string)
    ensures Before(a, b) <==>
            || (a <= b && a != b)
            || exists i: nat :: i < |a| && i < |b| && a[..i] == b[..i] && a[i] < b[i]
  {
    if a != "" && b != "" {
      BeforeIsLexicographic(a[1..], b[1..]);
      assert a == [a[0]] + a[1..] && b == [b[0]] + b[1..];
      if a[0] < b[0] {
        assert a[..0] == b[..0];
      }
      if a[0] == b[0] {
        if i: nat :| i < |a[1..]| && i < |b[1..]| && a[1..][..i] == b[1..][..i] && a[1..][i] < b[1..][i] {
          assert a[..i + 1] == [a[0]] + a[1..][..i] && b[..i + 1] == [b[0]] + b[1..][..i];
          assert a[i + 1] < b[i + 1];
        }
      }
      if i: nat :| i < |a| && i < |b| && a[..i] == b[..i] && a[i] < b[i] {
        if i > 0 {
          assert a[..i][0] == a[0] && b[..i][0] == b[0];
          assert a[..i][1..] == a[1..][..i - 1] && b[..i][1..] == b[1..][..i - 1];
          assert a[1..][i - 1] < b[1..][i - 1];
        }
      }
    }
  }

  lemma {:induction false} BeforeIsTotal(a: string, b: string)
    ensures a == b || Before(a, b) || Before(b, a)
    ensures !(Before(a, b) && Before(b, a)) && !Before(a, a)
  {
    if a != "" {
      BeforeIsTotal(a[1..], a[1..]);
    }
    if a != "" && b != "" && a[0] == b[0] {
      BeforeIsTotal(a[1..], b[1..]);
      assert a == [a[0]] + a[1..] && b == [b[0]] + b[1..];
    }
  }

  lemma {:induction false} BeforeIsTransitive(a: string, b: string, c: string)
    requires Before(a, b) && Before(b, c)
    ensures Before(a, c)
  {
    if a != "" && a[0] == b[0] == c[0] {
      BeforeIsTransitive(a[1..], b[1..], c[1..]);
    }
  }

  ghost predicate Increasing(keys: seq<string>) {
    forall i, j | 0 <= i < j < |keys| :: Before(keys[i], keys[j])
  }

  function InsertKey(k: string, keys: seq<string>): seq<string> {
    if keys == [] || Before(k, keys[0]) then [k] + keys else [keys[0]] + InsertKey(k, keys[1..])
  }

  function SortKeys(keys: seq<string>): seq<string> {
    if keys == [] then [] else InsertKey(keys[0], SortKeys(keys[1..]))
  }

  lemma {:induction false} InsertKeyIncreases(k: string, keys: seq<string>)
    requires Increasing(keys) && k !in keys
    ensures Increasing(InsertKey(k, keys))
    ensures forall x :: x in InsertKey(k, keys) <==> x == k || x in keys
  {
    if keys != [] {
      BeforeIsTotal(k, keys[0]);
      if Before(k, keys[0]) {
        forall j | 0 < j < |keys| ensures Before(k, keys[j]) {
          BeforeIsTransitive(k, keys[0], keys[j]);
        }
      } else {
        InsertKeyIncreases(k, keys[1..]);
        var rest := InsertKey(k, keys[1..]);
        forall j | 0 <= j < |rest| ensures Before(keys[0], rest[j]) {
          assert rest[j] in rest;
        }
      }
    }
  }

  lemma {:induction false} SortKeysIncreases(o: Localization)
    requires o.Plain()
    ensures Increasing(SortKeys(o.Keys())) && forall x :: x in SortKeys(o.Keys()) <==> x in o.Keys()
  {
    if o.Prop? {
      assert o.Keys()[1..] == o.rest.Keys();
      SortKeysIncreases(o.rest);
      KeysHas(o.rest, o.key);
      InsertKeyIncreases(o.key, SortKeys(o.rest.Keys()));
    }
  }

  lemma {:induction false} SortKeysOfIncreasing(keys: seq<string>)
    requires Increasing(keys)
    ensures SortKeys(keys) == keys
  {
    if keys != [] {
      SortKeysOfIncreasing(keys[1..]);
    }
  }

  function SortLocalization(o: Localization): Localization
    decreases o, 1, 0
  {
    Reduce(o, SortKeys(o.Keys()))
  }

  /** The `reduce` over the sorted keys, which sets each key on a fresh object. */
  function Reduce(o: Localization, keys: seq<string>): Localization
    decreases o, 0, |keys|
  {
    if keys == [] then Empty
    else
      var k := keys[|keys| - 1];
      var result := Reduce(o, keys[..|keys| - 1]);
      match o.Get(k)
      case Some(Sub(s)) => result.Set(k, Sub(SortLocalization(s)))
      case Some(v) => result.Set(k, v)
      case None => result
  }

  function Sorted(v: Option<Value>): Option<Value> {
    if v.Some? && v.value.Sub? then Some(Sub(SortLocalization(v.value.entries))) else v
  }

  lemma {:induction false} SetNewKeyIsLast(o: Localization, k: string, v: Value)
    requires !o.Has(k)
    ensures o.Set(k, v).Keys() == o.Keys() + [k]
  {
    if o.Prop? {
      SetNewKeyIsLast(o.rest, k, v);
    }
  }

  lemma {:induction false} ReduceGet(o: Localization, keys: seq<string>)
    requires Increasing(keys) && forall k | k in keys :: o.Has(k)
    ensures Reduce(o, keys).Keys() == keys
    ensures forall k :: Reduce(o, keys).Get(k) == if k in keys then Sorted(o.Get(k)) else None
  {
    if keys != [] {
      var init, last := keys[..|keys| - 1], keys[|keys| - 1];
      assert keys == init + [last];
      ReduceGet(o, init);
      BeforeIsTotal(last, last);
      assert last in keys;
      var r, v := Reduce(o, init), Sorted(o.Get(last)).value;
      SetNewKeyIsLast(r, last, v);
      forall k ensures r.Set(last, v).Get(k) == if k == last then Some(v) else r.Get(k) {
        GetSet(r, last, v, k);
      }
    }
  }

  /** What `sortLocalization` does to each property. */
  lemma SortGet(o: Localization)
    requires o.Plain()
    ensures Increasing(SortLocalization(o).Keys())
    ensures forall k :: SortLocalization(o).Get(k) == Sorted(o.Get(k))
  {
    SortKeysIncreases(o);
    forall k ensures k in SortKeys(o.Keys()) <==> o.Has(k) {
      KeysHas(o, k);
    }
    ReduceGet(o, SortKeys(o.Keys()));
  }

  /** `sortLocalization` keeps the flattening. */
  lemma {:induction false} SortKeepsFlattening(o: Localization, path: seq<string>)
    requires o.Plain()
    ensures SortLocalization(o).At(path) == o.At(path)
    decreases |path|
  {
    if path != [] {
      SortGet(o);
      PlainGet(o, path[0]);
      if o.Has(path[0]) && o.Get(path[0]).value.Sub? {
        SortKeepsFlattening(o.Get(path[0]).value.entries, path[1..]);
      }
    }
  }

  ghost predicate SortedLevels(o: Localization) {
    Increasing(o.Keys()) && forall k | o.Has(k) && o.Get(k).value.Sub? :: SortedLevels(o.Get(k).value.entries)
  }

  /** It sorts the keys at every level. */
  lemma {:induction false} SortSortsLevels(o: Localization)
    requires o.Plain()
    ensures SortedLevels(SortLocalization(o))
  {
    SortGet(o);
    forall k | o.Has(k) && o.Get(k).value.Sub? ensures SortedLevels(SortLocalization(o.Get(k).value.entries)) {
      PlainGet(o, k);
      SortSortsLevels(o.Get(k).value.entries);
    }
  }

  lemma {:induction false} IncreasingIsPlain(o: Localization)
    requires SortedLevels(o)
    ensures o.Plain()
  {
    if o.Prop? {
      SortedRest(o);
      IncreasingIsPlain(o.rest);
      assert o.Get(o.key) == Some(o.value);
      if o.value.Sub? {
        IncreasingIsPlain(o.value.entries);
      }
    }
  }

  lemma SortedRest(o: Localization)
    requires SortedLevels(o) && o.Prop?
    ensures SortedLevels(o.rest) && !o.rest.Has(o.key)
  {
    assert o.Keys()[1..] == o.rest.Keys();
    KeysHas(o.rest, o.key);
    BeforeIsTotal(o.key, o.key);
    forall k | k in o.rest.Keys() ensures Before(o.key, k) {
      var i :| 0 <= i < |o.rest.Keys()| && o.rest.Keys()[i] == k;
      assert Before(o.Keys()[0], o.Keys()[i + 1]);
    }
    assert forall k | o.rest.Has(k) :: o.rest.Get(k) == o.Get(k);
  }

  /** An object whose levels are sorted is its own sorted form, so sorting is idempotent. */
  lemma {:induction false} SortOfSorted(o: Localization)
    requires SortedLevels(o)
    ensures SortLocalization(o) == o
  {
    SortKeysOfIncreasing(o.Keys());
    IncreasingIsPlain(o);
    SortGet(o);
    var r := SortLocalization(o);
    ReduceGet(o, o.Keys()) by {
      forall k | k in o.Keys() ensures o.Has(k) {
        KeysHas(o, k);
      }
    }
    forall k | o.Has(k) ensures r.Get(k) == o.Get(k) {
      if o.Get(k).value.Sub? {
        SortOfSorted(o.Get(k).value.entries);
      }
    }
    SameProperties(r, o);
  }

  lemma {:induction false} SameProperties(a: Localization, b: Localization)
    requires a.Keys() == b.Keys() && Increasing(a.Keys())
    requires forall k | b.Has(k) :: a.Get(k) == b.Get(k)
    ensures a == b
  {
    if b.Prop? {
      assert a.Keys()[0] == a.key && b.Keys()[0] == b.key;
      assert a.Keys()[1..] == a.rest.Keys() && b.Keys()[1..] == b.rest.Keys();
      assert b.Has(b.key);
      forall k | b.rest.Has(k) ensures a.rest.Get(k) == b.rest.Get(k) {
        KeysHas(b.rest, k);
        var i :| 0 <= i < |b.rest.Keys()| && b.rest.Keys()[i] == k;
        assert Before(a.Keys()[0], a.Keys()[i + 1]);
        BeforeIsTotal(k, k);
        assert b.Get(k) == a.Get(k);
      }
      SameProperties(a.rest, b.rest);
    } else {
      assert a.Keys() == [];
    }
  }

  lemma SortIsIdempotent(o: Localization)
    requires o.Plain()
    ensures SortLocalization(SortLocalization(o)) == SortLocalization(o)
  {
    SortSortsLevels(o);
    SortOfSorted(SortLocalization(o));
  }
}
