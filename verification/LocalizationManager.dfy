/**
 * `translateLanguage` and `buildLocalizationMap` of `localization-manager.ts`: the target tree is
 * pruned and filled with empty objects in place, the missing texts are collected, and indexed
 * write-back functions put the translations in. A write-back function holds a reference to an
 * object of the target and a key; here that is the path of keys to the new text (a `Slot`).
 */
module LocalizationManager {
  import opened Wrappers
  import opened Localizations
  import opened DeeplApi
  import opened IgnoreTags

  datatype Slot = Slot(path: seq<string>, text: string)

  /** A target after `buildLocalizationMap`, and what is still missing in it. */
  datatype Prepared = Prepared(tree: Localization, slots: seq<Slot>)

  /** The slots of an object, as slots of the object from which `path` leads to it. */
  function Prefixed(path: seq<string>, slots: seq<Slot>): (r: seq<Slot>)
    ensures |r| == |slots|
  {
    seq(|slots|, i requires 0 <= i < |slots| => Slot(path + slots[i].path, slots[i].text))
  }

  function Texts(slots: seq<Slot>): (r: seq<string>)
    ensures |r| == |slots|
  {
    seq(|slots|, i requires 0 <= i < |slots| => slots[i].text)
  }

  /** The first loop: delete the keys of `t` that `s` does not have. */
  function DeleteExtra(t: Localization, keys: seq<string>, s: Localization): Localization
    decreases |keys|
  {
    if keys == [] then t
    else DeleteExtra(if s.Has(keys[0]) then t else t.Delete(keys[0]), keys[1..], s)
  }

  function Process(s: Localization, t: Localization): Prepared
    decreases s, 1
  {
    ProcessEntries(s, DeleteExtra(t, t.Keys(), s))
  }

  /** The second loop, over the remaining entries `s` of the source. */
  function ProcessEntries(s: Localization, t: Localization): Prepared
    decreases s, 0
  {
    match s
    case Empty => Prepared(t, [])
    case Prop(k, Text(x), rest) =>
      var after := ProcessEntries(rest, t);
      if t.Has(k) then after else Prepared(after.tree, [Slot([k], x)] + after.slots)
    case Prop(k, Sub(o), rest) =>
      var child := Process(o, t.Child(k));
      var after := ProcessEntries(rest, t.Set(k, Sub(child.tree)));
      Prepared(after.tree, Prefixed([k], child.slots) + after.slots)
  }

  /** `t[key] = translation` for the object and key of a slot. */
  function Assign(t: Localization, path: seq<string>, text: string): Localization
    decreases |path|
  {
    if path == [] then t
    else if |path| == 1 then t.Set(path[0], Text(text))
    else t.Set(path[0], Sub(Assign(t.Child(path[0]), path[1..], text)))
  }

  function AssignAll(t: Localization, slots: seq<Slot>, texts: seq<string>): Localization
    requires |slots| == |texts|
    decreases |slots|
  {
    if slots == [] then t else AssignAll(Assign(t, slots[0].path, texts[0]), slots[1..], texts[1..])
  }

  /** The target after a translation with `f`. */
  function Translated(s: Localization, t: Localization, f: string -> string): Localization {
    var p := Process(s, t);
    AssignAll(p.tree, p.slots, Map(f, Texts(p.slots)))
  }

  // ----- What the result should be

  /**
   * `r` is the recursive merge of the source `s` and the old target `t`: it has exactly the keys of
   * `s`. For a text of `s`, whatever `t` has stays untouched (even an object), and what is missing is the
   * translation of that text. For an object of `s`, the merge goes on with the object that `t` has,
   * or with an empty one.
   */
  ghost predicate IsMerge(s: Localization, t: Localization, f: string -> string, r: Localization) {
    forall k :: MergedAt(s, t, f, r, k)
  }

  ghost predicate MergedAt(s: Localization, t: Localization, f: string -> string, r: Localization, k: string)
    decreases s, 0
  {
    match s.Get(k)
    case None => r.Get(k) == None
    case Some(Text(x)) => r.Get(k) == if t.Has(k) then t.Get(k) else Some(Text(f(x)))
    case Some(Sub(o)) => r.Get(k).Some? && r.Get(k).value.Sub? && forall n :: MergedAt(o, t.Child(k), f, r.Child(k), n)
  }

  /** The merge at the end of a path of keys that leads to a text of the source. */
  ghost predicate MergedAtPath(s: Localization, t: Localization, f: string -> string, r: Localization,
                               path: seq<string>)
    requires s.At(path).Some?
  {
    r.Entry(path) == if t.Entry(path).Some? then t.Entry(path) else Some(Text(f(s.At(path).value)))
  }

  lemma {:induction false} MergeAtPath(s: Localization, t: Localization, f: string -> string, r: Localization,
                                       path: seq<string>)
    requires IsMerge(s, t, f, r) && s.At(path).Some?
    ensures MergedAtPath(s, t, f, r, path)
    decreases |path|
  {
    var k := path[0];
    assert MergedAt(s, t, f, r, k);
    if |path| > 1 {
      MergeAtPath(s.Get(k).value.entries, t.Child(k), f, r.Child(k), path[1..]);
    }
  }

  // ----- Which texts are missing

  /** All texts of a localization object, in their order. */
  function Leaves(s: Localization): seq<Slot> {
    match s
    case Empty => []
    case Prop(k, Text(x), rest) => [Slot([k], x)] + Leaves(rest)
    case Prop(k, Sub(o), rest) => Prefixed([k], Leaves(o)) + Leaves(rest)
  }

  /** Those for which `t` has no entry. */
  function Missing(t: Localization, leaves: seq<Slot>): seq<Slot> {
    if leaves == [] then []
    else (if t.Entry(leaves[0].path).None? then [leaves[0]] else []) + Missing(t, leaves[1..])
  }

  lemma {:induction false} MissingOfConcat(t: Localization, a: seq<Slot>, b: seq<Slot>)
    ensures Missing(t, a + b) == Missing(t, a) + Missing(t, b)
  {
    if a == [] {
      assert a + b == b;
    } else {
      assert (a + b)[1..] == a[1..] + b;
      MissingOfConcat(t, a[1..], b);
    }
  }

  lemma EntryUnder(t: Localization, k: string, path: seq<string>)
    requires path != []
    ensures t.Entry([k] + path) == t.Child(k).Entry(path)
  {
    assert ([k] + path)[1..] == path;
  }

  lemma PrefixedOne(k: string, slot: Slot, slots: seq<Slot>)
    ensures Prefixed([k], [slot] + slots) == [Slot([k] + slot.path, slot.text)] + Prefixed([k], slots)
  {
  }

  lemma {:induction false} MissingUnder(t: Localization, k: string, leaves: seq<Slot>)
    requires forall x | x in leaves :: x.path != []
    ensures Missing(t, Prefixed([k], leaves)) == Prefixed([k], Missing(t.Child(k), leaves))
  {
    if leaves != [] {
      assert leaves[0] in leaves;
      var path := leaves[0].path;
      assert ([k] + path)[1..] == path;
      assert Prefixed([k], leaves)[1..] == Prefixed([k], leaves[1..]);
      MissingUnder(t, k, leaves[1..]);
      EntryUnder(t, k, path);
      PrefixedOne(k, leaves[0], Missing(t.Child(k), leaves[1..]));
    }
  }

  lemma {:induction false} LeavesHavePaths(s: Localization)
    ensures forall x | x in Leaves(s) :: x.path != []
  {
    match s {
      case Empty =>
      case Prop(_, Text(_), rest) => LeavesHavePaths(rest);
      case Prop(_, Sub(o), rest) => LeavesHavePaths(rest);
    }
  }

  /** Only the entries under the keys of `s` matter. */
  lemma {:induction false} MissingOfSame(s: Localization, t: Localization, u: Localization)
    requires forall k | s.Has(k) :: t.Get(k) == u.Get(k)
    ensures Missing(t, Leaves(s)) == Missing(u, Leaves(s))
  {
    if s.Prop? {
      assert s.Has(s.key);
      assert forall k | s.rest.Has(k) :: s.Has(k);
      MissingOfSame(s.rest, t, u);
      if s.value.Sub? {
        LeavesHavePaths(s.value.entries);
        MissingUnder(t, s.key, Leaves(s.value.entries));
        MissingUnder(u, s.key, Leaves(s.value.entries));
        MissingOfConcat(t, Prefixed([s.key], Leaves(s.value.entries)), Leaves(s.rest));
        MissingOfConcat(u, Prefixed([s.key], Leaves(s.value.entries)), Leaves(s.rest));
      } else {
        MissingOfConcat(t, [Slot([s.key], s.value.text)], Leaves(s.rest));
        MissingOfConcat(u, [Slot([s.key], s.value.text)], Leaves(s.rest));
      }
    }
  }

  /** The texts that are collected for translation are exactly the missing ones, in the order of the source. */
  lemma {:induction false} SlotsAreMissingLeaves(s: Localization, t: Localization)
    requires s.Plain() && t.Plain()
    ensures Process(s, t).slots == Missing(t, Leaves(s))
    decreases s, 1
  {
    var pruned := DeleteExtra(t, t.Keys(), s);
    forall k ensures pruned.Plain() && (s.Has(k) ==> pruned.Get(k) == t.Get(k)) {
      PrunedGet(t, s, k);
    }
    EntrySlotsAreMissingLeaves(s, pruned);
    MissingOfSame(s, pruned, t);
  }

  lemma {:induction false} EntrySlotsAreMissingLeaves(s: Localization, t: Localization)
    requires s.Plain() && t.Plain()
    ensures ProcessEntries(s, t).slots == Missing(t, Leaves(s))
    decreases s, 0
  {
    match s {
      case Empty =>
      case Prop(k, Text(x), rest) =>
        EntrySlotsAreMissingLeaves(rest, t);
        MissingOfConcat(t, [Slot([k], x)], Leaves(rest));
      case Prop(k, Sub(o), rest) =>
        var u := t.Set(k, Sub(Process(o, t.Child(k)).tree));
        PlainGet(t, k);
        SlotsAreMissingLeaves(o, t.Child(k));
        ProcessIsPlain(o, t.Child(k));
        PlainSet(t, k, Sub(Process(o, t.Child(k)).tree));
        EntrySlotsAreMissingLeaves(rest, u);
        forall n | rest.Has(n) ensures u.Get(n) == t.Get(n) {
          GetSet(t, k, Sub(Process(o, t.Child(k)).tree), n);
        }
        MissingOfSame(rest, u, t);
        LeavesHavePaths(o);
        MissingUnder(t, k, Leaves(o));
        MissingOfConcat(t, Prefixed([k], Leaves(o)), Leaves(rest));
    }
  }

  // ----- Preparing

  lemma {:induction false} DeleteExtraGet(t: Localization, keys: seq<string>, s: Localization, k: string)
    requires t.Plain()
    ensures DeleteExtra(t, keys, s).Plain()
    decreases |keys|
    ensures DeleteExtra(t, keys, s).Get(k) == if k in keys && !s.Has(k) then None else t.Get(k)
  {
    if keys != [] {
      var u := if s.Has(keys[0]) then t else t.Delete(keys[0]);
      PlainDelete(t, keys[0]);
      GetDelete(t, keys[0], k);
      DeleteExtraGet(u, keys[1..], s, k);
    }
  }

  lemma PrunedGet(t: Localization, s: Localization, k: string)
    requires t.Plain()
    ensures DeleteExtra(t, t.Keys(), s).Plain()
    ensures DeleteExtra(t, t.Keys(), s).Get(k) == if s.Has(k) then t.Get(k) else None
  {
    DeleteExtraGet(t, t.Keys(), s, k);
    KeysHas(t, k);
  }

  /** What the second loop leaves under key `k`. */
  lemma {:induction false} ProcessEntriesGet(s: Localization, t: Localization, k: string)
    requires s.Plain()
    ensures ProcessEntries(s, t).tree.Get(k) ==
            match s.Get(k)
            case Some(Sub(o)) => Some(Sub(Process(o, t.Child(k)).tree))
            case _ => t.Get(k)
  {
    if s.Prop? {
      match s.value {
        case Text(_) =>
          ProcessEntriesGet(s.rest, t, k);
        case Sub(o) =>
          var u := Sub(Process(o, t.Child(s.key)).tree);
          ProcessEntriesGet(s.rest, t.Set(s.key, u), k);
          GetSet(t, s.key, u, k);
      }
    }
  }

  lemma ProcessGet(s: Localization, t: Localization, k: string)
    requires s.Plain() && t.Plain()
    ensures Process(s, t).tree.Get(k) ==
            match s.Get(k)
            case None => None
            case Some(Text(_)) => t.Get(k)
            case Some(Sub(o)) => Some(Sub(Process(o, t.Child(k)).tree))
  {
    PrunedGet(t, s, k);
    ProcessEntriesGet(s, DeleteExtra(t, t.Keys(), s), k);
  }

  // ----- Writing back

  lemma {:induction false} AssignAllSplit(t: Localization, a: seq<Slot>, b: seq<Slot>, va: seq<string>, vb: seq<string>)
    requires |a| == |va| && |b| == |vb|
    ensures AssignAll(t, a + b, va + vb) == AssignAll(AssignAll(t, a, va), b, vb)
    decreases |a|
  {
    if a == [] {
      assert a + b == b && va + vb == vb;
    } else {
      assert (a + b)[1..] == a[1..] + b && (va + vb)[1..] == va[1..] + vb;
      AssignAllSplit(Assign(t, a[0].path, va[0]), a[1..], b, va[1..], vb);
    }
  }

  ghost predicate NonEmptyPaths(slots: seq<Slot>) {
    forall x | x in slots :: x.path != []
  }

  /** Slots under one key only change the object under that key. */
  lemma {:induction false} AssignAllUnder(t: Localization, k: string, slots: seq<Slot>, texts: seq<string>)
    requires |slots| == |texts| && NonEmptyPaths(slots) && t.Get(k).Some? && t.Get(k).value.Sub?
    ensures AssignAll(t, Prefixed([k], slots), texts) == t.Set(k, Sub(AssignAll(t.Child(k), slots, texts)))
    decreases |slots|
  {
    if slots == [] {
      SetSame(t, k, Sub(t.Child(k)));
    } else {
      var path := slots[0].path;
      assert slots[0] in slots && ([k] + path)[1..] == path;
      var child := Assign(t.Child(k), path, texts[0]);
      var u := t.Set(k, Sub(child));
      GetSet(t, k, Sub(child), k);
      assert Prefixed([k], slots)[1..] == Prefixed([k], slots[1..]);
      AssignAllUnder(u, k, slots[1..], texts[1..]);
      SetTwice(t, k, Sub(child), Sub(AssignAll(child, slots[1..], texts[1..])));
    }
  }

  lemma {:induction false} ProcessPaths(s: Localization, t: Localization)
    ensures NonEmptyPaths(ProcessEntries(s, t).slots)
  {
    match s {
      case Empty =>
      case Prop(_, Text(_), rest) => ProcessPaths(rest, t);
      case Prop(k, Sub(o), rest) =>
        var child := Process(o, t.Child(k));
        ProcessPaths(rest, t.Set(k, Sub(child.tree)));
    }
  }

  /** For the entries `s`, the same texts are missing in `t` and in `u`. */
  ghost predicate SameNeeds(s: Localization, t: Localization, u: Localization) {
    forall k | s.Has(k) ::
      match s.Get(k)
      case Some(Sub(o)) => Process(o, t.Child(k)).slots == Process(o, u.Child(k)).slots
      case _ => t.Has(k) <==> u.Has(k)
  }

  lemma {:induction false} SameNeedsSameSlots(s: Localization, t: Localization, u: Localization)
    requires s.Plain() && SameNeeds(s, t, u)
    ensures ProcessEntries(s, t).slots == ProcessEntries(s, u).slots
  {
    if s.Prop? {
      assert s.Has(s.key) && s.Get(s.key) == Some(s.value);
      forall k | s.rest.Has(k) ensures s.Has(k) && s.Get(k) == s.rest.Get(k) && k != s.key {
      }
      match s.value {
        case Text(_) =>
          SameNeedsSameSlots(s.rest, t, u);
        case Sub(o) =>
          var c, d := Sub(Process(o, t.Child(s.key)).tree), Sub(Process(o, u.Child(s.key)).tree);
          forall k | s.rest.Has(k) ensures t.Set(s.key, c).Get(k) == t.Get(k) && u.Set(s.key, d).Get(k) == u.Get(k) {
            GetSet(t, s.key, c, k);
            GetSet(u, s.key, d, k);
          }
          SameNeedsSameSlots(s.rest, t.Set(s.key, c), u.Set(s.key, d));
      }
    }
  }

  lemma SameEntriesSameSlots(s: Localization, t: Localization, u: Localization)
    requires s.Plain() && forall k | s.Has(k) :: t.Get(k) == u.Get(k)
    ensures ProcessEntries(s, t).slots == ProcessEntries(s, u).slots
  {
    forall k | s.Has(k) ensures t.Child(k) == u.Child(k) && (t.Has(k) <==> u.Has(k)) {
    }
    SameNeedsSameSlots(s, t, u);
  }

  lemma MapOfConcat(f: string -> string, a: seq<Slot>, b: seq<Slot>)
    ensures Map(f, Texts(a + b)) == Map(f, Texts(a)) + Map(f, Texts(b))
  {
  }

  lemma TextsUnder(k: string, slots: seq<Slot>)
    ensures Texts(Prefixed([k], slots)) == Texts(slots)
  {
  }

  /** `r` is what writing back the slots of the entries `s` makes of `o`, the other keys being left alone. */
  ghost predicate EntriesDone(s: Localization, t: Localization, f: string -> string, o: Localization, r: Localization) {
    forall k :: if s.Has(k) then MergedAt(s, t, f, r, k) else r.Get(k) == o.Get(k)
  }

  /** Writing back the translations of the entries `s` into `o`, which was prepared from `t`. */
  lemma {:induction false} WriteBackEntries(s: Localization, t: Localization, f: string -> string, o: Localization)
    requires s.Plain() && t.Plain()
    requires forall k | s.Has(k) ::
               o.Get(k) == match s.Get(k)
                           case Some(Sub(c)) => Some(Sub(Process(c, t.Child(k)).tree))
                           case _ => t.Get(k)
    ensures var slots := ProcessEntries(s, t).slots;
            EntriesDone(s, t, f, o, AssignAll(o, slots, Map(f, Texts(slots))))
    decreases s, 0
  {
    if s.Prop? {
      var slots := ProcessEntries(s, t).slots;
      var k, rest := s.key, s.rest;
      assert s.Has(k) && s.Get(k) == Some(s.value);
      var u := if s.value.Sub? then t.Set(k, Sub(Process(s.value.entries, t.Child(k)).tree)) else t;
      var later := ProcessEntries(rest, u).slots;
      forall n | rest.Has(n) ensures t.Get(n) == u.Get(n) && s.Get(n) == rest.Get(n) && n != k && s.Has(n) {
        if s.value.Sub? {
          GetSet(t, k, Sub(Process(s.value.entries, t.Child(k)).tree), n);
        }
      }
      SameEntriesSameSlots(rest, t, u);
      var o1 := FirstEntryDone(s, t, f, o);
      var own := slots[..|slots| - |later|];
      assert slots == own + later;
      MapOfConcat(f, own, later);
      AssignAllSplit(o, own, later, Map(f, Texts(own)), Map(f, Texts(later)));
      WriteBackEntries(rest, t, f, o1);
      var r := AssignAll(o1, later, Map(f, Texts(later)));
      forall n ensures if s.Has(n) then MergedAt(s, t, f, r, n) else r.Get(n) == o.Get(n) {
        EntryFromRest(s, t, f, o, o1, r, n);
      }
    }
  }

  lemma EntryFromRest(s: Localization, t: Localization, f: string -> string, o: Localization, o1: Localization,
                      r: Localization, n: string)
    requires s.Prop? && s.Plain() && EntriesDone(s.rest, t, f, o1, r)
    requires MergedAt(s, t, f, o1, s.key) && forall k | k != s.key :: o1.Get(k) == o.Get(k)
    ensures if s.Has(n) then MergedAt(s, t, f, r, n) else r.Get(n) == o.Get(n)
  {
    if s.rest.Has(n) {
      assert MergedAt(s.rest, t, f, r, n) && s.Get(n) == s.rest.Get(n);
    } else {
      assert r.Get(n) == o1.Get(n) && r.Child(n) == o1.Child(n);
    }
  }

  /** The slots of the first entry make its key what the merge wants, and change no other key. */
  lemma FirstEntryDone(s: Localization, t: Localization, f: string -> string, o: Localization) returns (r: Localization)
    requires s.Prop? && s.Plain() && t.Plain()
    requires o.Get(s.key) == match s.value
                             case Sub(c) => Some(Sub(Process(c, t.Child(s.key)).tree))
                             case _ => t.Get(s.key)
    ensures var u := if s.value.Sub? then t.Set(s.key, Sub(Process(s.value.entries, t.Child(s.key)).tree)) else t;
            var all, later := ProcessEntries(s, t).slots, ProcessEntries(s.rest, u).slots;
            && |later| <= |all| && all[|all| - |later|..] == later
            && r == AssignAll(o, all[..|all| - |later|], Map(f, Texts(all[..|all| - |later|])))
    ensures MergedAt(s, t, f, r, s.key) && forall k | k != s.key :: r.Get(k) == o.Get(k)
    decreases s, 0, 0
  {
    var k := s.key;
    match s.value {
      case Text(x) =>
        var own := if t.Has(k) then [] else [Slot([k], x)];
        var later := ProcessEntries(s.rest, t).slots;
        assert ProcessEntries(s, t).slots == own + later;
        r := if t.Has(k) then o else o.Set(k, Text(f(x)));
        assert own != [] ==> own[1..] == [];
        forall n ensures o.Set(k, Text(f(x))).Get(n) == if n == k then Some(Text(f(x))) else o.Get(n) {
          GetSet(o, k, Text(f(x)), n);
        }
      case Sub(c) =>
        var child := Process(c, t.Child(k));
        var own := Prefixed([k], child.slots);
        var later := ProcessEntries(s.rest, t.Set(k, Sub(child.tree))).slots;
        assert ProcessEntries(s, t).slots == own + later;
        PlainGet(t, k);
        ProcessPaths(c, DeleteExtra(t.Child(k), t.Child(k).Keys(), c));
        TextsUnder(k, child.slots);
        var texts := Map(f, Texts(child.slots));
        AssignAllUnder(o, k, child.slots, texts);
        TranslationIsMerge(c, t.Child(k), f);
        var merged := AssignAll(child.tree, child.slots, texts);
        r := o.Set(k, Sub(merged));
        forall n ensures r.Get(n) == if n == k then Some(Sub(merged)) else o.Get(n) {
          GetSet(o, k, Sub(merged), n);
        }
    }
  }

  /** The target becomes exactly the recursive merge. */
  lemma {:induction false} TranslationIsMerge(s: Localization, t: Localization, f: string -> string)
    requires s.Plain() && t.Plain()
    ensures IsMerge(s, t, f, Translated(s, t, f))
    decreases s, 1
  {
    var pruned := DeleteExtra(t, t.Keys(), s);
    var p := Process(s, t);
    forall k
      ensures p.tree.Get(k) == match s.Get(k)
                               case None => None
                               case Some(Text(_)) => t.Get(k)
                               case Some(Sub(o)) => Some(Sub(Process(o, t.Child(k)).tree))
      ensures pruned.Plain() && (s.Has(k) ==> pruned.Get(k) == t.Get(k))
    {
      ProcessGet(s, t, k);
      PrunedGet(t, s, k);
    }
    SameEntriesSameSlots(s, pruned, t);
    WriteBackEntries(s, t, f, p.tree);
    var r := Translated(s, t, f);
    forall k ensures MergedAt(s, t, f, r, k) {
      assert if s.Has(k) then MergedAt(s, t, f, r, k) else r.Get(k) == p.tree.Get(k);
    }
  }

  // ----- The target stays a JavaScript object

  lemma {:induction false} ProcessIsPlain(s: Localization, t: Localization)
    requires t.Plain()
    ensures Process(s, t).tree.Plain()
    decreases s, 1
  {
    DeleteExtraGet(t, t.Keys(), s, "");
    ProcessEntriesIsPlain(s, DeleteExtra(t, t.Keys(), s));
  }

  lemma {:induction false} ProcessEntriesIsPlain(s: Localization, t: Localization)
    requires t.Plain()
    ensures ProcessEntries(s, t).tree.Plain()
    decreases s, 0
  {
    match s {
      case Empty =>
      case Prop(_, Text(_), rest) => ProcessEntriesIsPlain(rest, t);
      case Prop(k, Sub(o), rest) =>
        var child := Process(o, t.Child(k)).tree;
        PlainGet(t, k);
        ProcessIsPlain(o, t.Child(k));
        PlainSet(t, k, Sub(child));
        ProcessEntriesIsPlain(rest, t.Set(k, Sub(child)));
    }
  }

  lemma {:induction false} AssignIsPlain(t: Localization, path: seq<string>, text: string)
    requires t.Plain()
    ensures Assign(t, path, text).Plain()
    decreases |path|
  {
    if |path| == 1 {
      PlainSet(t, path[0], Text(text));
    } else if path != [] {
      PlainGet(t, path[0]);
      AssignIsPlain(t.Child(path[0]), path[1..], text);
      PlainSet(t, path[0], Sub(Assign(t.Child(path[0]), path[1..], text)));
    }
  }

  lemma {:induction false} AssignAllIsPlain(t: Localization, slots: seq<Slot>, texts: seq<string>)
    requires t.Plain() && |slots| == |texts|
    ensures AssignAll(t, slots, texts).Plain()
    decreases |slots|
  {
    if slots != [] {
      AssignIsPlain(t, slots[0].path, texts[0]);
      AssignAllIsPlain(Assign(t, slots[0].path, texts[0]), slots[1..], texts[1..]);
    }
  }

  // ----- Running again

  /** `u` has no key that `s` lacks, and an object wherever `s` has one. */
  ghost predicate Settled(s: Localization, u: Localization) {
    forall k :: SettledAt(s, u, k)
  }

  ghost predicate SettledAt(s: Localization, u: Localization, k: string)
    decreases s, 0
  {
    match s.Get(k)
    case None => u.Get(k) == None
    case Some(Text(_)) => true
    case Some(Sub(o)) => u.Get(k).Some? && u.Get(k).value.Sub? && forall n :: SettledAt(o, u.Child(k), n)
  }

  lemma {:induction false} ProcessSettles(s: Localization, t: Localization)
    requires s.Plain() && t.Plain()
    ensures Settled(s, Process(s, t).tree)
  {
    forall k ensures SettledAt(s, Process(s, t).tree, k) {
      ProcessGet(s, t, k);
      if s.Get(k).Some? && s.Get(k).value.Sub? {
        PlainGet(s, k);
        PlainGet(t, k);
        ProcessSettles(s.Get(k).value.entries, t.Child(k));
      }
    }
  }

  lemma {:induction false} MergeSettles(s: Localization, t: Localization, f: string -> string, r: Localization)
    requires IsMerge(s, t, f, r)
    ensures Settled(s, r)
  {
    forall k ensures SettledAt(s, r, k) {
      assert MergedAt(s, t, f, r, k);
      if s.Get(k).Some? && s.Get(k).value.Sub? {
        MergeSettles(s.Get(k).value.entries, t.Child(k), f, r.Child(k));
      }
    }
  }

  lemma {:induction false} DeleteNothing(u: Localization, keys: seq<string>, s: Localization)
    requires forall k | k in keys :: s.Has(k)
    ensures DeleteExtra(u, keys, s) == u
    decreases |keys|
  {
    if keys != [] {
      DeleteNothing(u, keys[1..], s);
    }
  }

  /** Preparing a settled target changes nothing. */
  lemma {:induction false} SettledStays(s: Localization, u: Localization)
    requires s.Plain() && Settled(s, u)
    ensures Process(s, u).tree == u && DeleteExtra(u, u.Keys(), s) == u
    decreases s, 1
  {
    forall k | k in u.Keys() ensures s.Has(k) {
      KeysHas(u, k);
      assert SettledAt(s, u, k);
    }
    DeleteNothing(u, u.Keys(), s);
    forall k | s.Has(k) ensures SettledAt(s, u, k) {
    }
    SettledEntriesStay(s, u);
  }

  lemma {:induction false} SettledEntriesStay(s: Localization, u: Localization)
    requires s.Plain() && forall k | s.Has(k) :: SettledAt(s, u, k)
    ensures ProcessEntries(s, u).tree == u
    decreases s, 0
  {
    if s.Prop? {
      assert SettledAt(s, u, s.key);
      forall k | s.rest.Has(k) ensures SettledAt(s.rest, u, k) {
        assert SettledAt(s, u, k) && s.Get(k) == s.rest.Get(k);
      }
      if s.value.Sub? {
        SettledStays(s.value.entries, u.Child(s.key));
        SetSame(u, s.key, Sub(u.Child(s.key)));
      }
      SettledEntriesStay(s.rest, u);
    }
  }

  /** A prepared target misses the same texts, in the same order, as the target it was made from. */
  lemma {:induction false} PreparedNeedsTheSame(s: Localization, t: Localization)
    requires s.Plain() && t.Plain()
    ensures Process(s, Process(s, t).tree) == Process(s, t)
  {
    var u := Process(s, t).tree;
    ProcessSettles(s, t);
    SettledStays(s, u);
    var pruned := DeleteExtra(t, t.Keys(), s);
    assert SameNeeds(s, u, pruned) by {
      forall k | s.Has(k)
        ensures match s.Get(k)
                case Some(Sub(o)) => Process(o, u.Child(k)).slots == Process(o, pruned.Child(k)).slots
                case _ => u.Has(k) <==> pruned.Has(k)
      {
        ProcessGet(s, t, k);
        PrunedGet(t, s, k);
        if s.Get(k).value.Sub? {
          PlainGet(s, k);
          PlainGet(t, k);
          PreparedNeedsTheSame(s.Get(k).value.entries, t.Child(k));
        }
      }
    }
    SameNeedsSameSlots(s, u, pruned);
  }

  /**
   * Retry equivalence: after a failed call has left the target prepared, a second run asks for the
   * same texts in the same order and ends in the same tree as if the first had succeeded.
   */
  lemma RetryIsEquivalent(s: Localization, t: Localization, f: string -> string)
    requires s.Plain() && t.Plain()
    ensures var left := Process(s, t).tree;
            && Texts(Process(s, left).slots) == Texts(Process(s, t).slots)
            && Translated(s, left, f) == Translated(s, t, f)
  {
    PreparedNeedsTheSame(s, t);
  }

  lemma {:induction false} MergeNeedsNothing(s: Localization, t: Localization, f: string -> string, r: Localization)
    requires s.Plain() && IsMerge(s, t, f, r)
    ensures Process(s, r).slots == []
    decreases s, 1
  {
    MergeSettles(s, t, f, r);
    SettledStays(s, r);
    forall k | s.Has(k) ensures MergedAt(s, t, f, r, k) {
    }
    MergedEntriesNeedNothing(s, t, f, r);
  }

  lemma {:induction false} MergedEntriesNeedNothing(s: Localization, t: Localization, f: string -> string,
                                                    r: Localization)
    requires s.Plain() && forall k | s.Has(k) :: MergedAt(s, t, f, r, k)
    ensures ProcessEntries(s, r).slots == []
    decreases s, 0
  {
    if s.Prop? {
      assert MergedAt(s, t, f, r, s.key);
      forall k | s.rest.Has(k) ensures MergedAt(s.rest, t, f, r, k) {
        assert MergedAt(s, t, f, r, k) && s.Get(k) == s.rest.Get(k);
      }
      if s.value.Sub? {
        var o := s.value.entries;
        MergeSettles(o, t.Child(s.key), f, r.Child(s.key));
        SettledStays(o, r.Child(s.key));
        SetSame(r, s.key, Sub(r.Child(s.key)));
        MergeNeedsNothing(o, t.Child(s.key), f, r.Child(s.key));
      }
      MergedEntriesNeedNothing(s.rest, t, f, r);
    }
  }

  /** After a success, a further run asks for nothing and changes nothing. */
  lemma NothingLeftToDo(s: Localization, t: Localization, f: string -> string, r: Localization)
    requires s.Plain() && IsMerge(s, t, f, r)
    ensures Process(s, r) == Prepared(r, [])
  {
    MergeSettles(s, t, f, r);
    SettledStays(s, r);
    MergeNeedsNothing(s, t, f, r);
  }

  // ----- The code, which changes the target in place

  lemma PrefixedLonger(path: seq<string>, k: string, slots: seq<Slot>)
    ensures Prefixed(path + [k], slots) == Prefixed(path, Prefixed([k], slots))
  {
    assert forall p: seq<string> :: (path + [k]) + p == path + ([k] + p);
  }

  /** Assigning a text through its path is changing one property of the object that holds it. */
  lemma {:induction false} AssignIsGraft(t: Localization, path: seq<string>, text: string)
    requires path != []
    ensures var at := path[..|path| - 1];
            t.Graft(at, t.Subtree(at).Set(path[|path| - 1], Text(text))) == Assign(t, path, text)
    decreases |path|
  {
    if |path| > 1 {
      AssignIsGraft(t.Child(path[0]), path[1..], text);
      assert path[1..][..|path| - 2] == path[..|path| - 1][1..];
    }
  }

  /** Processing the object under key `k` of the object at `path` processes that one entry. */
  lemma ProcessChild(t: Localization, path: seq<string>, k: string, child: Localization, o: Localization)
    requires t.Subtree(path).Child(k) == child
    ensures var tree := Process(o, child).tree;
            t.Graft(path + [k], tree) == t.Graft(path, t.Subtree(path).Set(k, Sub(tree)))
    ensures t.Subtree(path + [k]) == child
  {
    GraftLonger(t, path, k, Process(o, child).tree);
  }

  class LocalizationMap {
    var target: Localization
    var slots: seq<Slot>

    constructor (target: Localization)
      ensures this.target == target && slots == []
    {
      this.target, slots := target, [];
    }

    method BuildLocalizationMap(source: Localization)
      modifies this
      ensures target == Process(source, old(target)).tree && slots == Process(source, old(target)).slots
    {
      slots := [];
      ProcessAt(source, []);
      assert Prefixed([], Process(source, old(target)).slots) == Process(source, old(target)).slots by {
        assert forall p: seq<string> :: [] + p == p;
      }
    }

    /** The recursive `process(s, t)` for the object `t` at `path`. */
    method ProcessAt(s: Localization, path: seq<string>)
      requires target.Leads(path)
      modifies this
      ensures target == old(target).Graft(path, Process(s, old(target).Subtree(path)).tree)
      ensures slots == old(slots) + Prefixed(path, Process(s, old(target).Subtree(path)).slots)
      ensures target.Leads(path)
      decreases s, 2
    {
      ghost var first := target;
      DeleteExtraAt(s, path);
      ghost var pruned := target.Subtree(path);
      ProcessEntriesAt(s, path);
      GraftTwice(first, path, pruned, ProcessEntries(s, pruned).tree);
    }

    /** The second loop of `process`. */
    method ProcessEntriesAt(s: Localization, path: seq<string>)
      requires target.Leads(path)
      modifies this
      ensures target == old(target).Graft(path, ProcessEntries(s, old(target).Subtree(path)).tree)
      ensures slots == old(slots) + Prefixed(path, ProcessEntries(s, old(target).Subtree(path)).slots)
      ensures target.Leads(path)
      decreases s, 1
    {
      ghost var first, t := target, target.Subtree(path);
      GraftSame(target, path);
      var rest := s;
      ghost var tree, all := ProcessEntries(s, t).tree, slots + Prefixed(path, ProcessEntries(s, t).slots);
      while rest.Prop?
        invariant target == first.Graft(path, target.Subtree(path)) && target.Leads(path)
        invariant ProcessEntries(rest, target.Subtree(path)).tree == tree
        invariant slots + Prefixed(path, ProcessEntries(rest, target.Subtree(path)).slots) == all
        invariant rest == s || rest < s
        decreases rest
      {
        ghost var current, before := target.Subtree(path), slots;
        ProcessEntry(rest.key, rest.value, path);
        GraftTwice(first, path, current, target.Subtree(path));
        PrefixedFirst(path, rest, current, before);
        rest := rest.rest;
      }
      assert Prefixed(path, []) == [];
    }

    /** The first loop of `process`. */
    method DeleteExtraAt(s: Localization, path: seq<string>)
      requires target.Leads(path)
      modifies this`target
      ensures var t := old(target).Subtree(path);
              target == old(target).Graft(path, DeleteExtra(t, t.Keys(), s))
      ensures var t := old(target).Subtree(path);
              target.Leads(path) && target.Subtree(path) == DeleteExtra(t, t.Keys(), s)
    {
      ghost var first := target;
      GraftSame(target, path);
      var keys := target.Subtree(path).Keys();
      for i := 0 to |keys|
        invariant target == first.Graft(path, target.Subtree(path)) && target.Leads(path)
        invariant DeleteExtra(target.Subtree(path), keys[i..], s) == DeleteExtra(first.Subtree(path), keys, s)
      {
        assert keys[i..][1..] == keys[i + 1..];
        if !s.Has(keys[i]) {
          var t := target.Subtree(path).Delete(keys[i]);
          GraftTwice(first, path, target.Subtree(path), t);
          SubtreeGraft(target, path, t);
          GraftLeads(target, path, t);
          target := target.Graft(path, t);
        }
      }
    }

    /** The body of the second loop of `process` for one property of the source. */
    method ProcessEntry(key: string, value: Value, path: seq<string>)
      requires target.Leads(path)
      modifies this
      ensures target == old(target).Graft(path, EntryTree(key, value, old(target).Subtree(path)))
      ensures target.Leads(path) && target.Subtree(path) == EntryTree(key, value, old(target).Subtree(path))
      ensures slots == old(slots) + Prefixed(path, EntrySlots(key, value, old(target).Subtree(path)))
      decreases value, 2
    {
      ghost var first := target;
      var current := target.Subtree(path);
      if value.Text? {
        if !current.Has(key) {
          slots := slots + [Slot(path + [key], value.text)];
        }
        GraftSame(target, path);
      } else {
        if !current.Has(key) || current.Get(key).value.Text? {
          target := target.Graft(path, current.Set(key, Sub(Empty)));
          GetSet(current, key, Sub(Empty), key);
          SubtreeGraft(first, path, current.Set(key, Sub(Empty)));
          GraftLeads(first, path, current.Set(key, Sub(Empty)));
        } else {
          GraftSame(first, path);
        }
        ghost var entered := target;
        LeadsLonger(target, path, key);
        ProcessChild(target, path, key, current.Child(key), value.entries);
        ProcessAt(value.entries, path + [key]);
        PrefixedLonger(path, key, Process(value.entries, current.Child(key)).slots);
        ghost var tree := Sub(Process(value.entries, current.Child(key)).tree);
        SetTwice(current, key, Sub(Empty), tree);
        GraftTwice(first, path, entered.Subtree(path), current.Set(key, tree));
        SubtreeGraft(first, path, current.Set(key, tree));
        GraftLeads(first, path, current.Set(key, tree));
      }
    }

    /** `localize(index, value)` */
    method Localize(index: nat, value: string)
      requires index < |slots| && slots[index].path != []
      modifies this`target
      ensures target == Assign(old(target), slots[index].path, value)
    {
      var path := slots[index].path;
      AssignIsGraft(target, path, value);
      var at := path[..|path| - 1];
      target := target.Graft(at, target.Subtree(at).Set(path[|path| - 1], Text(value)));
    }

    /** The loop over `translationResponse.translations`. */
    method LocalizeAll(translations: seq<string>)
      requires |translations| == |slots| && forall slot | slot in slots :: slot.path != []
      modifies this`target
      ensures target == AssignAll(old(target), slots, Map(RemoveIgnoreTags, translations))
    {
      ghost var results := Map(RemoveIgnoreTags, translations);
      for i := 0 to |slots|
        invariant AssignAll(target, slots[i..], results[i..]) == AssignAll(old(target), slots, results)
      {
        assert slots[i] in slots && slots[i..][1..] == slots[i + 1..] && results[i..][1..] == results[i + 1..];
        Localize(i, RemoveIgnoreTags(translations[i]));
      }
    }

    /**
     * `translateLanguage`; `f` is what the service makes of one text. What is sent is the missing texts of
     * the source in their order, with ignore tags, and each translation goes to its own place without them.
     */
    method TranslateLanguage(source: Localization, connection: Connection, ghost f: string -> string)
      returns (success: bool)
      requires source.Plain() && target.Plain()
      requires Pointwise(connection.service, f) && connection.requests == []
      modifies this, connection
      ensures target.Plain() && slots == Process(source, old(target)).slots == Missing(old(target), Leaves(source))
      ensures AreFullChunks(connection.requests) && Sent(slots, Concat(connection.requests), success)
      ensures success ==>
                && target == Translated(source, old(target), Localized(f))
                && IsMerge(source, old(target), Localized(f), target)
      ensures success ==> TextsTranslated(source, old(target), f, target)
      ensures !success ==> target == Process(source, old(target)).tree
      ensures (forall n, chunk :: connection.service(n, chunk).Some?) || Process(source, old(target)).slots == [] ==>
                success
    {
      BuildLocalizationMap(source);
      ghost var first := old(target);
      ghost var g := Localized(f);
      TranslatedTexts(source, first, f);
      ProcessPaths(source, DeleteExtra(first, first.Keys(), source));
      ProcessIsPlain(source, first);
      SlotsAreMissingLeaves(source, first);
      if |slots| > 0 {
        success := TranslateMissing(connection, f);
      } else {
        success := true;
      }
      if success {
        AssignAllIsPlain(Process(source, first).tree, slots, Map(g, Texts(slots)));
      }
    }

    /** The `try` block. */
    method TranslateMissing(connection: Connection, ghost f: string -> string) returns (success: bool)
      requires (forall slot | slot in slots :: slot.path != [])
      requires Pointwise(connection.service, f) && connection.requests == []
      modifies this`target, connection
      ensures target == if success then AssignAll(old(target), slots, Map(Localized(f), Texts(slots))) else old(target)
      ensures AreFullChunks(connection.requests) && Sent(slots, Concat(connection.requests), success)
      ensures (forall n, chunk :: connection.service(n, chunk).Some?) ==> success
    {
      var texts := Map(AddIgnoreTags, Texts(slots));
      var response := Deepl(texts, connection, f);
      if response.None? {
        return false;
      }
      LocalizeAll(response.value);
      assert Map(RemoveIgnoreTags, response.value) == Map(Localized(f), Texts(slots));
      success := true;
    }
  }

  /** What was sent: the texts of the slots in order, with ignore tags, all of them if there was an answer. */
  ghost predicate Sent(slots: seq<Slot>, sent: seq<string>, success: bool) {
    && |sent| <= |slots| && (forall i | 0 <= i < |sent| :: sent[i] == AddIgnoreTags(slots[i].text))
    && (success ==> |sent| == |slots|)
  }

  /**
   * Retry equivalence of the code: calls of `translateLanguage` on one target until one succeeds, with
   * services that may fail. Each call asks for the same texts in the same order, and however many fail, the
   * target is in the end what one successful call makes of it.
   */
  method TranslateUntilSuccess(source: Localization, map_: LocalizationMap, services: seq<Service>,
                               ghost f: string -> string)
    returns (success: bool, asked: seq<seq<string>>)
    requires source.Plain() && map_.target.Plain()
    requires forall service | service in services :: Pointwise(service, f)
    modifies map_
    ensures success ==>
              && map_.target == Translated(source, old(map_.target), Localized(f))
              && IsMerge(source, old(map_.target), Localized(f), map_.target)
    ensures !success && services != [] ==> map_.target == Process(source, old(map_.target)).tree
    ensures !success ==> |asked| == |services|
    ensures forall texts | texts in asked :: texts == Texts(Process(source, old(map_.target)).slots)
  {
    ghost var first := map_.target;
    TranslationIsMerge(source, first, Localized(f));
    RetryIsEquivalent(source, first, Localized(f));
    PreparedNeedsTheSame(source, first);
    success, asked := false, [];
    for i := 0 to |services|
      invariant map_.target.Plain() && |asked| == i
      invariant map_.target == if i == 0 then first else Process(source, first).tree
      invariant forall texts | texts in asked :: texts == Texts(Process(source, first).slots)
    {
      assert services[i] in services;
      var connection := new Connection(services[i]);
      success := map_.TranslateLanguage(source, connection, f);
      asked := asked + [Texts(map_.slots)];
      if success {
        return;
      }
    }
  }

  /**
   * Every text of the source has what was in the target before, or else its own translation: tags added,
   * translated, coerced, tags removed.
   */
  ghost predicate TextsTranslated(s: Localization, t: Localization, f: string -> string, r: Localization) {
    forall path | s.At(path).Some? ::
      r.Entry(path) == if t.Entry(path).Some? then t.Entry(path)
                       else Some(Text(RemoveIgnoreTags(CoerceTranslation(f(AddIgnoreTags(s.At(path).value))))))
  }

  lemma TranslatedTexts(s: Localization, t: Localization, f: string -> string)
    requires s.Plain() && t.Plain()
    ensures var r := Translated(s, t, Localized(f)); IsMerge(s, t, Localized(f), r) && TextsTranslated(s, t, f, r)
  {
    var r := Translated(s, t, Localized(f));
    TranslationIsMerge(s, t, Localized(f));
    forall path | s.At(path).Some? ensures MergedAtPath(s, t, Localized(f), r, path) {
      MergeAtPath(s, t, Localized(f), r, path);
    }
  }

  /** What one text becomes on its way through the tags and the service. */
  function Localized(f: string -> string): (r: string -> string)
    ensures forall x :: r(x) == RemoveIgnoreTags(CoerceTranslation(f(AddIgnoreTags(x))))
  {
    x => RemoveIgnoreTags(CoerceTranslation(f(AddIgnoreTags(x))))
  }

  function EntryTree(k: string, v: Value, t: Localization): Localization {
    if v.Sub? then t.Set(k, Sub(Process(v.entries, t.Child(k)).tree)) else t
  }

  function EntrySlots(k: string, v: Value, t: Localization): seq<Slot> {
    match v
    case Text(x) => if t.Has(k) then [] else [Slot([k], x)]
    case Sub(o) => Prefixed([k], Process(o, t.Child(k)).slots)
  }

  lemma PrefixedFirst(path: seq<string>, s: Localization, t: Localization, before: seq<Slot>)
    requires s.Prop?
    ensures var rest := ProcessEntries(s.rest, EntryTree(s.key, s.value, t));
            && ProcessEntries(s, t).tree == rest.tree
            && before + Prefixed(path, ProcessEntries(s, t).slots)
               == before + Prefixed(path, EntrySlots(s.key, s.value, t)) + Prefixed(path, rest.slots)
  {
  }
}
