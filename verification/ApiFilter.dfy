/**
 * The growing-page search of `ovsx-api-filter.ts` against a plain search of the whole listing.
 * Version cleaning, version order and range satisfaction are parameters.
 */
module ApiFilter {
  import opened Wrappers

  datatype Extension = Extension(namespace: string, version: string, engine: Option<string>)

  datatype QueryResult = QueryResult(totalSize: nat, extensions: seq<Extension>)

  /** Answers a query with an offset and a size. */
  type Client = (nat, nat) -> QueryResult

  function Min(a: int, b: int): int {
    if a < b then a else b
  }

  /** Every query sees one listing: the total is its length and a page is a slice, not empty before the end. */
  ghost predicate Honest(client: Client, all: seq<Extension>) {
    forall offset: nat, size: nat | offset <= |all| && size > 0 :: HonestPage(client(offset, size), all, offset)
  }

  ghost predicate HonestPage(r: QueryResult, all: seq<Extension>, offset: nat)
    requires offset <= |all|
  {
    && r.totalSize == |all|
    && |r.extensions| <= |all| - offset && r.extensions == all[offset..offset + |r.extensions|]
    && (offset < |all| ==> r.extensions != [])
  }

  /** The first answer claims no more than it holds, so the search stops after it. */
  ghost predicate OnePage(client: Client) {
    client(0, 5).totalSize <= |client(0, 5).extensions|
  }

  /** Every page but the last has the size that was asked for. */
  ghost predicate FullPages(client: Client, all: seq<Extension>) {
    forall offset: nat, size: nat | offset <= |all| && size > 0 ::
      |client(offset, size).extensions| == Min(size, |all| - offset)
  }

  function First(extensions: seq<Extension>, p: Extension -> bool): Option<Extension> {
    if extensions == [] then None
    else if p(extensions[0]) then Some(extensions[0])
    else First(extensions[1..], p)
  }

  /** `find`: the entry at the least index that satisfies `p`. */
  lemma {:induction false} FirstIsAtLeastIndex(extensions: seq<Extension>, p: Extension -> bool)
    ensures match First(extensions, p)
            case None => forall i | 0 <= i < |extensions| :: !p(extensions[i])
            case Some(e) =>
              exists i | 0 <= i < |extensions| ::
                extensions[i] == e && p(e) && forall j | 0 <= j < i :: !p(extensions[j])
  {
    if extensions != [] && !p(extensions[0]) {
      FirstIsAtLeastIndex(extensions[1..], p);
      if First(extensions, p).Some? {
        var e := First(extensions, p).value;
        var i :| 0 <= i < |extensions| - 1 && extensions[1..][i] == e && p(e)
                 && forall j | 0 <= j < i :: !p(extensions[1..][j]);
        assert extensions[i + 1] == e && forall j | 0 < j < i + 1 :: extensions[j] == extensions[1..][j - 1];
      }
    }
  }

  lemma {:induction false} FirstOfConcat(a: seq<Extension>, b: seq<Extension>, p: Extension -> bool)
    ensures First(a + b, p) == if First(a, p).Some? then First(a, p) else First(b, p)
  {
    if a == [] {
      assert a + b == b;
    } else {
      assert (a + b)[1..] == a[1..] + b;
      FirstOfConcat(a[1..], b, p);
    }
  }

  lemma FirstResumes(seen: seq<Extension>, page: seq<Extension>, rest: seq<Extension>, p: Extension -> bool)
    requires First(seen, p).None?
    ensures First(page, p).Some? ==> First(seen + page + rest, p) == First(page, p)
    ensures First(page, p).None? ==> First(seen + page, p).None?
  {
    FirstOfConcat(seen, page, p);
    FirstOfConcat(seen + page, rest, p);
  }

  /** A page decides the search over everything up to its end. */
  lemma PageContinuesSearch(all: seq<Extension>, offset: nat, page: seq<Extension>, p: Extension -> bool)
    requires offset + |page| <= |all| && page == all[offset..offset + |page|] && First(all[..offset], p).None?
    ensures First(page, p).Some? ==> First(all, p) == First(page, p)
    ensures First(page, p).None? ==> First(all[..offset + |page|], p).None?
  {
    var seen, rest := all[..offset], all[offset + |page|..];
    assert all[..offset + |page|] == seen + page && all == seen + page + rest;
    FirstResumes(seen, page, rest, p);
  }

  /** How many queries a search that finds nothing takes, from `left` unseen entries on with pages of `size`. */
  function Queries(left: nat, size: nat): nat
    requires size > 0
  {
    if left <= size then 1 else 1 + Queries(left - size, Min(size * 2, 100))
  }

  lemma {:induction false} QueriesOfHundreds(left: nat)
    ensures Queries(left, 100) == if left == 0 then 1 else (left + 99) / 100
  {
    if left > 100 {
      QueriesOfHundreds(left - 100);
    }
  }

  /** The number of queries against `n` entries: 5, 10, 20, 40 and 80 entries, then hundreds. */
  lemma QueryCount(n: nat)
    ensures n > 155 ==> Queries(n, 5) == 5 + (n - 155 + 99) / 100
    ensures n <= 155 ==>
              Queries(n, 5)
              == if n <= 5 then 1 else if n <= 15 then 2 else if n <= 35 then 3 else if n <= 75 then 4 else 5
  {
    assert n > 5 ==> Queries(n, 5) == 1 + Queries(n - 5, 10);
    assert n > 15 ==> Queries(n - 5, 10) == 1 + Queries(n - 15, 20);
    assert n > 35 ==> Queries(n - 15, 20) == 1 + Queries(n - 35, 40);
    assert n > 75 ==> Queries(n - 35, 40) == 1 + Queries(n - 75, 80);
    if n > 155 {
      assert Queries(n - 75, 80) == 1 + Queries(n - 155, 100);
      QueriesOfHundreds(n - 155);
    }
  }

  datatype Filter = Filter(
    isBuiltin: string -> bool,        // VSXBuiltinNamespaces.is, after toLowerCase
    apiVersion: string,
    clean: string -> Option<string>,  // semver.clean
    gte: (string, string) -> bool,    // semver.gte on clean versions
    satisfies: string -> bool)        // whether the supported API version satisfies a range
  {
    /** `gte` is a total preorder, section 11 of Semantic Versioning 2.0.0. */
    ghost predicate TotalPreorder() {
      && (forall a, b :: gte(a, b) || gte(b, a))
      && (forall a, b, c :: gte(a, b) && gte(b, c) ==> gte(a, c))
    }

    predicate VersionGreaterThanOrEqualTo(a: string, b: string) {
      clean(a).Some? && clean(b).Some? && gte(clean(a).value, clean(b).value)
    }

    function Compatible(builtin: bool): Extension -> bool {
      (e: Extension) =>
        if builtin then VersionGreaterThanOrEqualTo(apiVersion, e.version)
        else satisfies(if e.engine.Some? then e.engine.value else "*")
    }

    /** The first entry of the page decides which rule the whole page is judged by. */
    function GetLatestCompatibleExtension(extensions: seq<Extension>): Option<Extension> {
      if extensions == [] then None else First(extensions, Compatible(isBuiltin(extensions[0].namespace)))
    }

    /**
     * The rule in terms of versions and ranges alone: an entry of a listing of a built-in namespace is
     * accepted by its version, any other by the API version that its engine asks for.
     */
    ghost predicate Accepted(listing: seq<Extension>, i: nat)
      requires i < |listing|
    {
      if isBuiltin(listing[0].namespace) then
        && clean(apiVersion).Some? && clean(listing[i].version).Some?
        && gte(clean(apiVersion).value, clean(listing[i].version).value)
      else satisfies(match listing[i].engine case Some(range) => range case None => "*")
    }

    /** `r` is the first accepted entry, if there is one. */
    ghost predicate IsFirstAccepted(listing: seq<Extension>, r: Option<Extension>) {
      match r
      case None => forall i: nat | i < |listing| :: !Accepted(listing, i)
      case Some(e) =>
        exists i: nat :: i < |listing| && listing[i] == e && Accepted(listing, i)
                         && forall j: nat | j < i :: !Accepted(listing, j)
    }

    lemma LatestCompatibleIsFirstAccepted(listing: seq<Extension>)
      ensures IsFirstAccepted(listing, GetLatestCompatibleExtension(listing))
    {
      if listing != [] {
        var p := Compatible(isBuiltin(listing[0].namespace));
        FirstIsAtLeastIndex(listing, p);
        assert forall i: nat | i < |listing| :: Accepted(listing, i) <==> p(listing[i]);
      }
    }

    ghost predicate OneKind(all: seq<Extension>) {
      forall i, j | 0 <= i < |all| && 0 <= j < |all| :: isBuiltin(all[i].namespace) == isBuiltin(all[j].namespace)
    }

    ghost predicate HonestListing(client: Client, all: seq<Extension>) {
      Honest(client, all) && OneKind(all)
    }

    /**
     * The search over growing pages. Against an honest client it ends and finds the first compatible
     * entry of the whole listing `all`; `queries` counts the requests. Against a client whose first
     * answer claims no more than it holds, it looks at that answer only.
     */
    method QueryLatestCompatibleExtension(client: Client, ghost all: seq<Extension>)
      returns (r: Option<Extension>, ghost queries: nat)
      requires HonestListing(client, all) || OnePage(client)
      ensures HonestListing(client, all) ==> r == GetLatestCompatibleExtension(all)
      ensures HonestListing(client, all) && FullPages(client, all) ==>
                queries <= Queries(|all|, 5) && (r.None? ==> queries == Queries(|all|, 5))
      ensures OnePage(client) ==> r == GetLatestCompatibleExtension(client(0, 5).extensions) && queries == 1
    {
      ghost var honest, onePage := HonestListing(client, all), OnePage(client);
      var offset, size, loop := 0, 5, true;
      queries := 0;
      while loop
        invariant 5 <= size <= 100
        invariant honest ==>
                    && offset <= |all| && (!loop ==> offset == |all|)
                    && (loop ==> offset < |all| || (all == [] && queries == 0))
        invariant honest && all != [] ==> First(all[..offset], Compatible(isBuiltin(all[0].namespace))).None?
        invariant honest && FullPages(client, all) ==>
                    queries + (if loop then Queries(|all| - offset, size) else 0) == Queries(|all|, 5)
        invariant onePage ==>
                    if loop then (offset, size, queries) == (0, 5, 0)
                    else GetLatestCompatibleExtension(client(0, 5).extensions).None? && queries == 1
        decreases if honest then |all| - offset else 0, loop
      {
        var results := client(offset, size);
        var page := results.extensions;
        queries := queries + 1;
        var compatibleExtension := GetLatestCompatibleExtension(page);
        if honest {
          assert HonestPage(results, all, offset);
          if all != [] {
            PageContinuesSearch(all, offset, page, Compatible(isBuiltin(all[0].namespace)));
            assert page[0] == all[offset];
          }
        }
        if compatibleExtension.Some? {
          return compatibleExtension, queries;
        }
        offset := offset + |page|;
        loop := results.totalSize > offset;
        size := Min(size * 2, 100);
      }
      assert honest ==> all[..|all|] == all;
      r := None;
    }

    /**
     * Looking only at the first page of a listing agrees with the search of the whole listing exactly
     * when that page has a compatible entry or the listing has none.
     */
    lemma FirstPageIsEnoughIff(page: seq<Extension>, all: seq<Extension>)
      requires page <= all && OneKind(all)
      ensures GetLatestCompatibleExtension(page) == GetLatestCompatibleExtension(all)
              <==> GetLatestCompatibleExtension(page).Some? || GetLatestCompatibleExtension(all).None?
    {
      if all != [] {
        PageContinuesSearch(all, 0, page, Compatible(isBuiltin(all[0].namespace)));
      }
    }

    /** Whether `findLatestCompatibleExtension` asks for the universal version too. */
    predicate AsksForUniversal(targetPlatform: Option<string>) {
      targetPlatform !in {None, Some(""), Some("universal"), Some("web")}
    }

    /**
     * `findLatestCompatibleExtension`: the choice between the first compatible entries of the listing
     * for the platform and of the universal one. `clients` answers the queries for each platform.
     */
    method FindLatestCompatibleExtension(targetPlatform: Option<string>, clients: Option<string> -> Client,
                                         ghost listings: Option<string> -> seq<Extension>)
      returns (r: Option<Extension>)
      requires HonestListing(clients(targetPlatform), listings(targetPlatform))
      requires targetPlatform.Some? && targetPlatform.value !in {"", "universal", "web"} ==>
                 HonestListing(clients(Some("universal")), listings(Some("universal")))
      ensures var p := GetLatestCompatibleExtension(listings(targetPlatform));
              var u := GetLatestCompatibleExtension(listings(Some("universal")));
              var asks := targetPlatform.Some? && targetPlatform.value !in {"", "universal", "web"};
              && IsChoice(p, if asks then u else None, r)
              && IsFirstAccepted(listings(targetPlatform), p) && IsFirstAccepted(listings(Some("universal")), u)
    {
      LatestCompatibleIsFirstAccepted(listings(targetPlatform));
      LatestCompatibleIsFirstAccepted(listings(Some("universal")));
      ghost var n;
      var latestWithTargetPlatform: Option<Extension>;
      latestWithTargetPlatform, n := QueryLatestCompatibleExtension(clients(targetPlatform), listings(targetPlatform));
      var latestUniversal: Option<Extension> := None;
      if AsksForUniversal(targetPlatform) {
        latestUniversal, n := QueryLatestCompatibleExtension(clients(Some("universal")), listings(Some("universal")));
      }
      if latestWithTargetPlatform.Some? && latestUniversal.Some? {
        var p, u := latestWithTargetPlatform.value.version, latestUniversal.value.version;
        return if VersionGreaterThanOrEqualTo(p, u) then latestWithTargetPlatform else latestUniversal;
      }
      r := if latestWithTargetPlatform.Some? then latestWithTargetPlatform else latestUniversal;
    }

    /**
     * A candidate is chosen if there is one. The universal one is chosen over one for the platform
     * exactly when that is not known to be at least as new.
     */
    ghost predicate IsChoice(p: Option<Extension>, u: Option<Extension>, r: Option<Extension>) {
      if p.Some? && u.Some? then r == if VersionGreaterThanOrEqualTo(p.value.version, u.value.version) then p else u
      else r == if p.Some? then p else u
    }

    /** The choice between two candidates is at least as new as both, exactly when both versions are valid. */
    lemma ChoiceIsLatest(p: Extension, u: Extension, r: Extension)
      requires TotalPreorder() && IsChoice(Some(p), Some(u), Some(r))
      ensures VersionGreaterThanOrEqualTo(r.version, p.version) && VersionGreaterThanOrEqualTo(r.version, u.version)
              <==> clean(p.version).Some? && clean(u.version).Some?
    {
    }
  }

  /** The API has version 1, and the only other version is 2. */
  function SmallFilter(): Filter {
    Filter(namespace => namespace == "vscode", "1", version => Some(version), (a, b) => a == b || a == "2",
           range => range in {"*", "1"})
  }

  /** An extension that is not built in is judged by its engine, whatever its own version. */
  lemma OtherExtensionsAreJudgedByEngine()
    ensures var newer := Extension("redhat", "2", Some("1"));
            SmallFilter().GetLatestCompatibleExtension([newer]) == Some(newer)
    ensures var older := Extension("redhat", "1", Some("2"));
            SmallFilter().GetLatestCompatibleExtension([older]) == None
  {
  }

  /** A built-in extension is judged by its version, whatever its engine. */
  lemma BuiltinExtensionsAreJudgedByVersion()
    ensures var newer, older := Extension("vscode", "2", Some("1")), Extension("vscode", "1", Some("2"));
            SmallFilter().GetLatestCompatibleExtension([newer, older]) == Some(older)
  {
    var newer, older := Extension("vscode", "2", Some("1")), Extension("vscode", "1", Some("2"));
    var filter, p := SmallFilter(), SmallFilter().Compatible(true);
    assert !filter.VersionGreaterThanOrEqualTo(filter.apiVersion, "2") by {
      assert !filter.gte("1", "2");
    }
    assert filter.VersionGreaterThanOrEqualTo(filter.apiVersion, "1");
    assert !p(newer) && p(older);
    assert First([newer, older], p) == First([newer, older][1..], p) && [newer, older][1..] == [older];
  }
}
