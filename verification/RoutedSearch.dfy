/**
 * The growing-page search of `ovsx-api-filter.ts` with the router of `ovsx-router-client.ts` as its
 * client: the total of a merged page is its length, so the search ends after one page.
 */
module RoutedSearch {
  import opened Wrappers
  import opened ApiFilter
  import Router

  type Rules = seq<Router.Rule<Extension>>

  /** What each registry is asked for one page. */
  function Asked(clients: string -> Client, offset: nat, size: nat): (string, nat) -> Router.Answer<Extension> {
    (uri, index) => Router.Answer(offset, clients(uri)(offset, size).extensions)
  }

  ghost function MergedPages(rules: Rules, registries: seq<string>, clients: string -> Client, offset: nat, size: nat)
    : seq<seq<Extension>>
  {
    Router.FilteredLists(rules, Router.Mapping(registries, Asked(clients, offset, size)))
  }

  ghost function MergedPage(rules: Rules, registries: seq<string>, clients: string -> Client, offset: nat, size: nat)
    : seq<Extension>
  {
    Router.Flatten(MergedPages(rules, registries, clients, offset, size))
  }

  /** One query through the router. */
  method Query(rules: Rules, registries: seq<string>, clients: string -> Client, offset: nat, size: nat)
    returns (r: QueryResult)
    ensures var page := MergedPage(rules, registries, clients, offset, size); r == QueryResult(|page|, page)
  {
    var merged := Router.MergedQuery(rules, registries, Asked(clients, offset, size));
    r := QueryResult(merged.totalSize, merged.extensions);
  }

  /** `client` is the router. */
  ghost predicate Routes(client: Client, rules: Rules, registries: seq<string>, clients: string -> Client) {
    forall offset: nat, size: nat ::
      client(offset, size) == QueryResult(|MergedPage(rules, registries, clients, offset, size)|,
                                          MergedPage(rules, registries, clients, offset, size))
  }

  /** What survives of the whole listing of each registry. */
  ghost function Listings(rules: Rules, registries: seq<string>, listings: string -> seq<Extension>)
    : seq<seq<Extension>>
  {
    var uris := Router.Distinct(registries);
    seq(|uris|, i requires 0 <= i < |uris| => Router.Survivors(rules, uris[i], listings(uris[i])))
  }

  // ----- Looking at the first pages only

  /** The list at `k` is the first with an entry that satisfies `p`. */
  ghost predicate FirstWith(lists: seq<seq<Extension>>, k: nat, p: Extension -> bool)
    requires k < |lists|
  {
    First(lists[k], p).Some? && forall j | 0 <= j < k :: First(lists[j], p).None?
  }

  /** The first list with such an entry has one on its page, if there is such a list. */
  ghost predicate ShowsFirst(pages: seq<seq<Extension>>, lists: seq<seq<Extension>>, p: Extension -> bool)
    requires |pages| == |lists|
  {
    forall k | 0 <= k < |lists| && FirstWith(lists, k, p) :: First(pages[k], p).Some?
  }

  ghost predicate NoRepeats(s: seq<Extension>) {
    forall i, j | 0 <= i < j < |s| :: s[i] != s[j]
  }

  lemma ShowsFirstOfRest(pages: seq<seq<Extension>>, lists: seq<seq<Extension>>, p: Extension -> bool)
    requires |pages| == |lists| > 0 && First(lists[0], p).None?
    ensures ShowsFirst(pages, lists, p) <==> ShowsFirst(pages[1..], lists[1..], p)
  {
    assert forall k | 1 <= k < |lists| :: FirstWith(lists, k, p) <==> FirstWith(lists[1..], k - 1, p) by {
      forall k | 1 <= k < |lists| ensures FirstWith(lists, k, p) <==> FirstWith(lists[1..], k - 1, p) {
        assert lists[1..][k - 1] == lists[k];
        assert forall j | 1 <= j < k :: lists[1..][j - 1] == lists[j];
      }
    }
    if ShowsFirst(pages, lists, p) {
      forall k | 0 <= k < |lists[1..]| && FirstWith(lists[1..], k, p) ensures First(pages[1..][k], p).Some? {
        assert FirstWith(lists, k + 1, p);
      }
    }
    if ShowsFirst(pages[1..], lists[1..], p) {
      forall k | 0 <= k < |lists| && FirstWith(lists, k, p) ensures First(pages[k], p).Some? {
        assert k > 0 && First(pages[1..][k - 1], p).Some?;
      }
    }
  }

  lemma {:induction false} FirstIsIn(s: seq<Extension>, p: Extension -> bool)
    ensures First(s, p).Some? ==> First(s, p).value in s
  {
    if s != [] && !p(s[0]) {
      FirstIsIn(s[1..], p);
    }
  }

  lemma FirstOfPrefix(page: seq<Extension>, all: seq<Extension>, p: Extension -> bool)
    requires page <= all
    ensures First(page, p).Some? ==> First(all, p) == First(page, p)
  {
    FirstOfConcat(page, all[|page|..], p);
    assert all == page + all[|page|..];
  }

  lemma {:induction false} PagesAreParts(pages: seq<seq<Extension>>, lists: seq<seq<Extension>>, x: Extension)
    requires |pages| == |lists| && forall i | 0 <= i < |lists| :: pages[i] <= lists[i]
    ensures x in Router.Flatten(pages) ==> x in Router.Flatten(lists)
  {
    if lists != [] {
      PagesAreParts(pages[1..], lists[1..], x);
    }
  }

  /**
   * The first entry of all pages is the first of all listings if the first registry that has one shows
   * it on its page. Unless an entry occurs twice, it is so only then.
   */
  lemma {:induction false} FirstOfPages(pages: seq<seq<Extension>>, lists: seq<seq<Extension>>, p: Extension -> bool)
    requires |pages| == |lists| && forall i | 0 <= i < |lists| :: pages[i] <= lists[i]
    ensures var same := First(Router.Flatten(pages), p) == First(Router.Flatten(lists), p);
            && (ShowsFirst(pages, lists, p) ==> same)
            && (NoRepeats(Router.Flatten(lists)) && same ==> ShowsFirst(pages, lists, p))
  {
    if lists != [] {
      var page, list := pages[0], lists[0];
      var laterPages, later := Router.Flatten(pages[1..]), Router.Flatten(lists[1..]);
      FirstOfConcat(page, laterPages, p);
      FirstOfConcat(list, later, p);
      FirstOfPrefix(page, list, p);
      if First(list, p).None? {
        ShowsFirstOfRest(pages, lists, p);
        FirstOfPages(pages[1..], lists[1..], p);
        assert NoRepeats(list + later) ==> NoRepeats(later) by { NoRepeatsRest(list, later); }
      } else if First(page, p).None? {
        assert FirstWith(lists, 0, p);
        FirstIsIn(list, p);
        FirstIsIn(laterPages, p);
        if First(laterPages, p).Some? {
          PagesAreParts(pages[1..], lists[1..], First(laterPages, p).value);
          NoRepeatsApart(list, later, First(list, p).value, First(laterPages, p).value);
        }
      }
    }
  }

  lemma NoRepeatsRest(a: seq<Extension>, b: seq<Extension>)
    ensures NoRepeats(a + b) ==> NoRepeats(b)
  {
    assert forall i | 0 <= i < |b| :: (a + b)[|a| + i] == b[i];
  }

  lemma NoRepeatsApart(a: seq<Extension>, b: seq<Extension>, x: Extension, y: Extension)
    requires x in a && y in b
    ensures NoRepeats(a + b) ==> x != y
  {
    var i :| 0 <= i < |a| && a[i] == x;
    var j :| 0 <= j < |b| && b[j] == y;
    assert (a + b)[i] == x && (a + b)[|a| + j] == y;
  }

  // ----- The search through the router

  lemma {:induction false} SurvivorsOfPrefix(rules: Rules, uri: string, page: seq<Extension>, all: seq<Extension>)
    requires page <= all
    ensures Router.Survivors(rules, uri, page) <= Router.Survivors(rules, uri, all)
    decreases |all|
  {
    if page == all {
    } else {
      SurvivorsOfPrefix(rules, uri, page, all[..|all| - 1]);
    }
  }

  lemma PagesOfListings(rules: Rules, registries: seq<string>, clients: string -> Client,
                        listings: string -> seq<Extension>)
    requires forall uri | uri in registries :: Honest(clients(uri), listings(uri))
    ensures var pages, lists := MergedPages(rules, registries, clients, 0, 5), Listings(rules, registries, listings);
            |pages| == |lists| && forall i | 0 <= i < |lists| :: pages[i] <= lists[i]
  {
    var uris := Router.Distinct(registries);
    var pages, lists := MergedPages(rules, registries, clients, 0, 5), Listings(rules, registries, listings);
    forall i | 0 <= i < |uris| ensures pages[i] <= lists[i] {
      assert uris[i] in registries;
      var page := clients(uris[i])(0, 5);
      assert HonestPage(page, listings(uris[i]), 0);
      SurvivorsOfPrefix(rules, uris[i], page.extensions, listings(uris[i]));
    }
  }

  lemma {:induction false} NothingOnPages(pages: seq<seq<Extension>>, lists: seq<seq<Extension>>)
    requires |pages| == |lists| && forall i | 0 <= i < |lists| :: pages[i] <= lists[i]
    ensures Router.Flatten(pages) != [] ==> Router.Flatten(pages)[0] in Router.Flatten(lists)
  {
    if Router.Flatten(pages) != [] {
      PagesAreParts(pages, lists, Router.Flatten(pages)[0]);
    }
  }

  /** How the entries of a listing of one kind are judged. */
  function Judge(filter: Filter, all: seq<Extension>): Extension -> bool {
    filter.Compatible(all != [] && filter.isBuiltin(all[0].namespace))
  }

  /**
   * With honest registries behind the router, the search returns the first compatible entry of their
   * merged first pages of 5. That is the first of their merged listings if and only if the first
   * registry that has a compatible entry has one on its first page, or none has (as long as no entry
   * occurs twice).
   */
  method SearchThroughRouter(filter: Filter, client: Client, ghost rules: Rules, ghost registries: seq<string>,
                             ghost clients: string -> Client, ghost listings: string -> seq<Extension>)
    returns (r: Option<Extension>)
    requires Routes(client, rules, registries, clients)
    requires forall uri | uri in registries :: Honest(clients(uri), listings(uri))
    requires filter.OneKind(Router.Flatten(Listings(rules, registries, listings)))
    ensures r == filter.GetLatestCompatibleExtension(MergedPage(rules, registries, clients, 0, 5))
    ensures var lists := Listings(rules, registries, listings); var all := Router.Flatten(lists);
            var pages := MergedPages(rules, registries, clients, 0, 5);
            && |pages| == |lists|
            && (ShowsFirst(pages, lists, Judge(filter, all)) ==> r == filter.GetLatestCompatibleExtension(all))
            && (NoRepeats(all) && r == filter.GetLatestCompatibleExtension(all) ==>
                  ShowsFirst(pages, lists, Judge(filter, all)))
  {
    ghost var n;
    ghost var lists := Listings(rules, registries, listings);
    ghost var all := Router.Flatten(lists);
    ghost var pages := MergedPages(rules, registries, clients, 0, 5);
    ghost var page := MergedPage(rules, registries, clients, 0, 5);
    assert client(0, 5) == QueryResult(|page|, page);
    r, n := filter.QueryLatestCompatibleExtension(client, all);
    PagesOfListings(rules, registries, clients, listings);
    NothingOnPages(pages, lists);
    FirstOfPages(pages, lists, Judge(filter, all));
  }

  // ----- A registry whose sixth entry is never seen

  /** A registry that answers with slices of `all`. */
  function Pager(all: seq<Extension>): Client {
    (offset: nat, size: nat) =>
      QueryResult(|all|, if offset <= |all| then all[offset..Min(offset + size, |all|)] else [])
  }

  lemma {:induction false} SurvivorsWithoutRules(uri: string, all: seq<Extension>)
    ensures Router.Survivors([], uri, all) == all
  {
    if all != [] {
      SurvivorsWithoutRules(uri, all[..|all| - 1]);
    }
  }

  lemma PageOfPager(all: seq<Extension>, offset: nat, size: nat)
    requires offset + size <= |all|
    ensures Pager(all)(offset, size).extensions == all[offset..offset + size]
  {
    var end := Min(offset + size, |all|);
    assert end == offset + size && Pager(all)(offset, size) == QueryResult(|all|, all[offset..end]);
  }

  lemma PagerIsHonest(all: seq<Extension>)
    ensures Honest(Pager(all), all)
  {
    forall offset: nat, size: nat | offset <= |all| && size > 0
      ensures HonestPage(Pager(all)(offset, size), all, offset)
    {
      var end := Min(offset + size, |all|);
      assert Pager(all)(offset, size) == QueryResult(|all|, all[offset..end]);
    }
  }

  /** Without rules, one registry is passed on as it is. */
  lemma OneRegistry(uri: string, clients: string -> Client, offset: nat, size: nat)
    ensures MergedPage([], [uri], clients, offset, size) == clients(uri)(offset, size).extensions
  {
    var page := clients(uri)(offset, size).extensions;
    var pages := MergedPages([], [uri], clients, offset, size);
    assert Router.Distinct([uri]) == [uri] by { assert Router.Distinct([uri][..0]) == []; }
    SurvivorsWithoutRules(uri, page);
    assert pages == [page];
    assert Router.Flatten(pages) == page + Router.Flatten(pages[1..]);
  }

  lemma FirstPageOfPager(all: seq<Extension>)
    requires |all| >= 5
    ensures MergedPage([], ["r"], _ => Pager(all), 0, 5) == all[..5]
  {
    OneRegistry("r", _ => Pager(all), 0, 5);
    PageOfPager(all, 0, 5);
  }

  /** The only compatible entry is the sixth: the registry itself finds it, the router does not. */
  lemma SixthEntryIsMissed(filter: Filter, old_: Extension, good: Extension)
    requires filter.isBuiltin(old_.namespace) == filter.isBuiltin(good.namespace)
    requires var p := filter.Compatible(filter.isBuiltin(good.namespace)); p(good) && !p(old_)
    ensures var all := [old_, old_, old_, old_, old_, good];
            && Honest(Pager(all), all) && filter.OneKind(all)
            && filter.GetLatestCompatibleExtension(all) == Some(good)
            && filter.GetLatestCompatibleExtension(MergedPage([], ["r"], _ => Pager(all), 0, 5)) == None
  {
    var all := [old_, old_, old_, old_, old_, good];
    PagerIsHonest(all);
    FirstPageOfPager(all);
    var p := filter.Compatible(filter.isBuiltin(good.namespace));
    FirstIsAtLeastIndex(all[..5], p);
    FirstOfConcat(all[..5], [good], p);
    assert all == all[..5] + [good];
  }
}
