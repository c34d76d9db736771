/**
 * Runs of `localize` in `localization-manager.ts` for one language: each run reads the translation file,
 * translates, and writes the target back sorted, whether the translation succeeded or not.
 */
module LocalizationFile {
  import opened Wrappers
  import opened Localizations
  import opened DeeplApi
  import opened LocalizationManager

  // ----- Objects that are sorted to the same

  lemma {:induction false} SameKeys(a: seq<string>, b: seq<string>)
    requires Increasing(a) && Increasing(b) && forall x :: x in a <==> x in b
    ensures a == b
  {
    assert a != [] ==> a[0] in b;
    assert b != [] ==> b[0] in a;
    if a != [] && b != [] {
      BeforeIsTotal(a[0], b[0]);
      assert a[0] == b[0];
      forall x ensures x in a[1..] <==> x in b[1..] {
        BeforeIsTotal(a[0], a[0]);
        assert x in a[1..] <==> x in a && x != a[0];
        assert x in b[1..] <==> x in b && x != b[0];
      }
      SameKeys(a[1..], b[1..]);
    }
  }

  lemma SortedAlike(a: Localization, b: Localization)
    requires a.Plain() && b.Plain() && forall k :: Sorted(a.Get(k)) == Sorted(b.Get(k))
    ensures SortLocalization(a) == SortLocalization(b)
  {
    var x, y := SortLocalization(a), SortLocalization(b);
    SortGet(a);
    SortGet(b);
    forall k ensures k in x.Keys() <==> k in y.Keys() {
      KeysHas(x, k);
      KeysHas(y, k);
      assert x.Get(k) == y.Get(k);
    }
    SameKeys(x.Keys(), y.Keys());
    SameProperties(x, y);
  }

  // ----- The file after a failed run

  function Written(s: Localization, t: Localization): Localization {
    SortLocalization(Process(s, t).tree)
  }

  lemma WrittenGet(s: Localization, t: Localization, k: string)
    requires s.Plain() && t.Plain()
    ensures Written(s, t).Get(k) ==
            match s.Get(k)
            case None => None
            case Some(Text(_)) => Sorted(t.Get(k))
            case Some(Sub(o)) => Some(Sub(Written(o, t.Child(k))))
  {
    ProcessIsPlain(s, t);
    SortGet(Process(s, t).tree);
    ProcessGet(s, t, k);
  }

  lemma WrittenIsPlain(s: Localization, t: Localization)
    requires t.Plain()
    ensures Written(s, t).Plain()
  {
    ProcessIsPlain(s, t);
    SortSortsLevels(Process(s, t).tree);
    IncreasingIsPlain(Written(s, t));
  }

  lemma {:induction false} WrittenIsSettled(s: Localization, t: Localization)
    requires s.Plain() && t.Plain()
    ensures Settled(s, Written(s, t))
  {
    forall k ensures SettledAt(s, Written(s, t), k) {
      WrittenGet(s, t, k);
      if s.Get(k).Some? && s.Get(k).value.Sub? {
        PlainGet(s, k);
        PlainGet(t, k);
        WrittenIsSettled(s.Get(k).value.entries, t.Child(k));
      }
    }
  }

  /** The file of a failed run needs no preparation, and misses the same texts in the same order. */
  lemma {:induction false} WrittenNeedsTheSame(s: Localization, t: Localization)
    requires s.Plain() && t.Plain()
    ensures Process(s, Written(s, t)) == Prepared(Written(s, t), Process(s, t).slots)
  {
    var u, pruned := Written(s, t), DeleteExtra(t, t.Keys(), s);
    WrittenIsSettled(s, t);
    SettledStays(s, u);
    assert SameNeeds(s, u, pruned) by {
      forall k | s.Has(k)
        ensures match s.Get(k)
                case Some(Sub(o)) => Process(o, u.Child(k)).slots == Process(o, pruned.Child(k)).slots
                case _ => u.Has(k) <==> pruned.Has(k)
      {
        WrittenGet(s, t, k);
        PrunedGet(t, s, k);
        if s.Get(k).value.Sub? {
          PlainGet(s, k);
          PlainGet(t, k);
          WrittenNeedsTheSame(s.Get(k).value.entries, t.Child(k));
        }
      }
    }
    SameNeedsSameSlots(s, u, pruned);
  }

  /** Merging into the file of a failed run and into what was there before gives the same file. */
  lemma {:induction false} MergesAreWrittenAlike(s: Localization, t: Localization, f: string -> string,
                                                 r: Localization, q: Localization)
    requires s.Plain() && t.Plain() && r.Plain() && q.Plain()
    requires IsMerge(s, t, f, r) && IsMerge(s, Written(s, t), f, q)
    ensures SortLocalization(r) == SortLocalization(q)
  {
    var u := Written(s, t);
    forall k ensures Sorted(r.Get(k)) == Sorted(q.Get(k)) {
      assert MergedAt(s, t, f, r, k) && MergedAt(s, u, f, q, k);
      WrittenGet(s, t, k);
      PlainGet(t, k);
      match s.Get(k) {
        case None =>
        case Some(Text(_)) =>
          if t.Has(k) && t.Get(k).value.Sub? {
            SortIsIdempotent(t.Child(k));
          }
        case Some(Sub(o)) =>
          PlainGet(s, k);
          PlainGet(r, k);
          PlainGet(q, k);
          assert u.Child(k) == Written(o, t.Child(k));
          assert IsMerge(o, t.Child(k), f, r.Child(k)) && IsMerge(o, u.Child(k), f, q.Child(k));
          MergesAreWrittenAlike(o, t.Child(k), f, r.Child(k), q.Child(k));
      }
    }
    SortedAlike(r, q);
  }

  lemma TranslatedIsPlain(s: Localization, t: Localization, f: string -> string)
    requires t.Plain()
    ensures Translated(s, t, f).Plain()
  {
    var p := Process(s, t);
    ProcessIsPlain(s, t);
    AssignAllIsPlain(p.tree, p.slots, Map(f, Texts(p.slots)));
  }

  /**
   * Retry equivalence through the file: after a failed run, the next one asks for the same texts in the
   * same order and ends in the same file.
   */
  lemma RetryThroughFileIsEquivalent(s: Localization, t: Localization, f: string -> string)
    requires s.Plain() && t.Plain()
    ensures var file := Written(s, t);
            && Texts(Process(s, file).slots) == Texts(Process(s, t).slots)
            && Written(s, file) == file
            && SortLocalization(Translated(s, file, f)) == SortLocalization(Translated(s, t, f))
  {
    var file := Written(s, t);
    WrittenNeedsTheSame(s, t);
    ProcessIsPlain(s, t);
    SortIsIdempotent(Process(s, t).tree);
    WrittenIsPlain(s, t);
    TranslationIsMerge(s, t, f);
    TranslationIsMerge(s, file, f);
    TranslatedIsPlain(s, t, f);
    TranslatedIsPlain(s, file, f);
    MergesAreWrittenAlike(s, t, f, Translated(s, t, f), Translated(s, file, f));
  }

  /** The translation file of one language. */
  class TranslationFile {
    var content: Localization

    constructor (content: Localization)
      ensures this.content == content
    {
      this.content := content;
    }

    /** One run: read the file, translate, write the target sorted. `asked` are the texts to be translated. */
    method Run(source: Localization, connection: Connection, ghost f: string -> string)
      returns (success: bool, asked: seq<string>)
      requires source.Plain() && content.Plain()
      requires Pointwise(connection.service, f) && connection.requests == []
      modifies this, connection
      ensures content == if success then SortLocalization(Translated(source, old(content), Localized(f)))
                         else Written(source, old(content))
      ensures asked == Texts(Process(source, old(content)).slots)
    {
      var run := new LocalizationMap(content);
      success := run.TranslateLanguage(source, connection, f);
      content, asked := SortLocalization(run.target), Texts(run.slots);
    }
  }

  /**
   * Runs of the program on one file until one succeeds, `services` being the translation service of each
   * run. All of them ask for the same texts, and the file is in the end what one successful run writes.
   */
  method LocalizeUntilSuccess(source: Localization, file: TranslationFile, services: seq<Service>,
                              ghost f: string -> string)
    returns (success: bool, asked: seq<seq<string>>)
    requires source.Plain() && file.content.Plain()
    requires forall service | service in services :: Pointwise(service, f)
    modifies file
    ensures success ==> file.content == SortLocalization(Translated(source, old(file.content), Localized(f)))
    ensures !success && services != [] ==> file.content == Written(source, old(file.content))
    ensures !success ==> |asked| == |services|
    ensures forall texts | texts in asked :: texts == Texts(Process(source, old(file.content)).slots)
  {
    ghost var first := file.content;
    RetryThroughFileIsEquivalent(source, first, Localized(f));
    WrittenIsPlain(source, first);
    success, asked := false, [];
    for i := 0 to |services|
      invariant file.content == (if i == 0 then first else Written(source, first)) && |asked| == i
      invariant forall texts | texts in asked :: texts == Texts(Process(source, first).slots)
    {
      assert services[i] in services;
      var connection := new Connection(services[i]);
      var texts: seq<string>;
      success, texts := file.Run(source, connection, f);
      asked := asked + [texts];
      if success {
        return;
      }
    }
  }
}
