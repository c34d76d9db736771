/** `computeModules` of `application-package.ts`, over the order that the collector produced. */
module ApplicationPackage {
  import opened Wrappers
  import opened Collector

  /** A JavaScript `Map` with its entries in order. */
  type OrderedMap = seq<(string, string)>

  function Decimal(n: nat): string {
    if n < 10 then [('0' as int + n) as char] else Decimal(n / 10) + [('0' as int + n % 10) as char]
  }

  function Value(s: string): int {
    if s == "" then 0 else 10 * Value(s[..|s| - 1]) + (s[|s| - 1] as int - '0' as int)
  }

  lemma {:induction false} ValueOfDecimal(n: nat)
    ensures Decimal(n) != "" && Value(Decimal(n)) == n
  {
    if n >= 10 {
      ValueOfDecimal(n / 10);
      assert Decimal(n)[..|Decimal(n)| - 1] == Decimal(n / 10);
    }
  }

  function Key(primary: string, index: nat): string {
    primary + "_" + Decimal(index)
  }

  lemma KeysAreDistinct(primary: string, i: nat, j: nat)
    requires Key(primary, i) == Key(primary, j)
    ensures i == j
  {
    assert Key(primary, i)[|primary| + 1..] == Decimal(i) && Key(primary, j)[|primary| + 1..] == Decimal(j);
    ValueOfDecimal(i);
    ValueOfDecimal(j);
  }

  /** `extension[primary] || (secondary && extension[secondary])`, when that is a string. */
  function ModulePath(extension: map<string, string>, primary: string, secondary: Option<string>): Option<string> {
    if primary in extension && extension[primary] != "" then Some(extension[primary])
    else if secondary.Some? && secondary.value != "" then
      if secondary.value in extension then Some(extension[secondary.value]) else None
    else secondary // an empty `secondary` is itself the result of `&&`
  }

  /** The modules of the extensions `extensions` of the package called `name`. */
  function ModulesOf(join: (string, string) -> string, name: Name, extensions: seq<map<string, string>>,
                     primary: string, secondary: Option<string>): seq<string> {
    if extensions == [] then []
    else
      var init := ModulesOf(join, name, extensions[..|extensions| - 1], primary, secondary);
      var path := ModulePath(extensions[|extensions| - 1], primary, secondary);
      if path.Some? then init + [join(name, path.value)] else init
  }

  function AllModules(join: (string, string) -> string, packages: seq<ExtensionPackage>, primary: string,
                      secondary: Option<string>): seq<string> {
    if packages == [] then []
    else
      var last := packages[|packages| - 1];
      AllModules(join, packages[..|packages| - 1], primary, secondary)
      + ModulesOf(join, last.name, last.pck.theiaExtensions, primary, secondary)
  }

  /** `m` holds exactly `modules`, in order, under the keys numbered from 1. */
  ghost predicate Numbered(m: OrderedMap, primary: string, modules: seq<string>) {
    |m| == |modules| && forall k | 0 <= k < |m| :: m[k] == (Key(primary, k + 1), modules[k])
  }

  // ----- What the modules are, from the properties of the extensions alone

  /** The extension `extension` of the package at `package`. */
  datatype Place = Place(package: nat, extension: nat)

  ghost predicate IsPlace(packages: seq<ExtensionPackage>, place: Place) {
    place.package < |packages| && place.extension < |packages[place.package].pck.theiaExtensions|
  }

  ghost predicate Precedes(a: Place, b: Place) {
    a.package < b.package || (a.package == b.package && a.extension < b.extension)
  }

  /**
   * An extension contributes its primary property unless that is missing or empty, otherwise its secondary
   * property if it has one, and otherwise nothing. (An empty name of the secondary property is a path.)
   */
  ghost predicate Contributes(extension: map<string, string>, primary: string, secondary: Option<string>,
                              path: string)
  {
    if primary in extension && extension[primary] != "" then path == extension[primary]
    else
      || (secondary.Some? && secondary.value != "" && secondary.value in extension
          && path == extension[secondary.value])
      || (secondary == Some("") && path == "")
  }

  ghost predicate ContributesAt(packages: seq<ExtensionPackage>, place: Place, primary: string,
                                secondary: Option<string>, path: string)
  {
    && IsPlace(packages, place)
    && Contributes(packages[place.package].pck.theiaExtensions[place.extension], primary, secondary, path)
  }

  ghost predicate ModuleAt(join: (string, string) -> string, packages: seq<ExtensionPackage>, place: Place,
                           primary: string, secondary: Option<string>, module_: string)
  {
    exists path ::
      ContributesAt(packages, place, primary, secondary, path) && module_ == join(packages[place.package].name, path)
  }

  /**
   * `modules` are exactly the contributions of all extensions, in the order of packages and extensions.
   */
  ghost predicate AreContributions(join: (string, string) -> string, packages: seq<ExtensionPackage>, primary: string,
                                   secondary: Option<string>, places: seq<Place>, modules: seq<string>)
  {
    && |places| == |modules|
    && (forall k | 0 <= k < |places| ::
          ModuleAt(join, packages, places[k], primary, secondary, modules[k]))
    && (forall k, l | 0 <= k < l < |places| :: Precedes(places[k], places[l]))
    && (forall place, path | ContributesAt(packages, place, primary, secondary, path) ::
          place in places)
  }

  lemma ModulePathIsContribution(extension: map<string, string>, primary: string, secondary: Option<string>,
                                 path: string)
    ensures ModulePath(extension, primary, secondary) == Some(path)
            <==> Contributes(extension, primary, secondary, path)
  {
  }

  lemma {:induction false} ModulesOfAreContributions(join: (string, string) -> string, package: ExtensionPackage,
                                                     x: nat, primary: string, secondary: Option<string>)
    returns (places: seq<Place>)
    requires x <= |package.pck.theiaExtensions|
    ensures var cut := package.(pck := package.pck.(theiaExtensions := package.pck.theiaExtensions[..x]));
            AreContributions(join, [cut], primary, secondary, places,
                             ModulesOf(join, package.name, package.pck.theiaExtensions[..x], primary, secondary))
  {
    places := [];
    if x > 0 {
      var extensions := package.pck.theiaExtensions;
      var cut := package.(pck := package.pck.(theiaExtensions := extensions[..x]));
      var before := package.(pck := package.pck.(theiaExtensions := extensions[..x - 1]));
      places := ModulesOfAreContributions(join, package, x - 1, primary, secondary);
      var last := Place(0, x - 1);
      assert extensions[..x][..x - 1] == extensions[..x - 1];
      forall place, path
        ensures ContributesAt([cut], place, primary, secondary, path) && place != last
                <==> ContributesAt([before], place, primary, secondary, path)
      {
      }
      forall path
        ensures ContributesAt([cut], last, primary, secondary, path)
                <==> ModulePath(extensions[x - 1], primary, secondary) == Some(path)
      {
        ModulePathIsContribution(extensions[x - 1], primary, secondary, path);
      }
      if ModulePath(extensions[x - 1], primary, secondary).Some? {
        var path := ModulePath(extensions[x - 1], primary, secondary).value;
        places := places + [last];
        assert ContributesAt([cut], last, primary, secondary, path);
      }
    }
  }

  /** The package at 0 of one list is the package at `n` of another. */
  function Moved(places: seq<Place>, n: nat): (r: seq<Place>)
    ensures |r| == |places|
  {
    seq(|places|, k requires 0 <= k < |places| => Place(places[k].package + n, places[k].extension))
  }

  lemma {:induction false} ModulesAreContributions(join: (string, string) -> string, packages: seq<ExtensionPackage>,
                                                   primary: string, secondary: Option<string>)
    returns (places: seq<Place>)
    ensures AreContributions(join, packages, primary, secondary, places,
                             AllModules(join, packages, primary, secondary))
  {
    places := [];
    if packages != [] {
      var n := |packages| - 1;
      var last := packages[n];
      var before := ModulesAreContributions(join, packages[..n], primary, secondary);
      var own := ModulesOfAreContributions(join, last, |last.pck.theiaExtensions|, primary, secondary);
      var extensions := last.pck.theiaExtensions;
      assert extensions[..|extensions|] == extensions;
      assert last.(pck := last.pck.(theiaExtensions := extensions)) == last;
      var modules := ModulesOf(join, last.name, extensions, primary, secondary);
      OneMorePackage(join, packages, primary, secondary, before, AllModules(join, packages[..n], primary, secondary),
                     own, modules);
      places := before + Moved(own, n);
    }
  }

  lemma OneMorePackage(join: (string, string) -> string, packages: seq<ExtensionPackage>, primary: string,
                       secondary: Option<string>, before: seq<Place>, modules: seq<string>, own: seq<Place>,
                       ownModules: seq<string>)
    requires packages != []
    requires AreContributions(join, packages[..|packages| - 1], primary, secondary, before, modules)
    requires AreContributions(join, [packages[|packages| - 1]], primary, secondary, own, ownModules)
    ensures AreContributions(join, packages, primary, secondary, before + Moved(own, |packages| - 1),
                             modules + ownModules)
  {
    var n := |packages| - 1;
    var places, all := before + Moved(own, n), modules + ownModules;
    forall k | 0 <= k < |places| ensures ModuleAt(join, packages, places[k], primary, secondary, all[k]) {
      if k < |before| {
        EarlierModule(join, packages, before[k], primary, secondary, modules[k]);
      } else {
        LastModule(join, packages, own[k - |before|], primary, secondary, ownModules[k - |before|]);
      }
    }
    PlacesIncrease(join, packages, primary, secondary, before, modules, own, ownModules);
    forall place, path | ContributesAt(packages, place, primary, secondary, path) ensures place in places {
      if place.package < n {
        assert ContributesAt(packages[..n], place, primary, secondary, path);
      } else {
        assert ContributesAt([packages[n]], Place(0, place.extension), primary, secondary, path);
        var k :| 0 <= k < |own| && own[k] == Place(0, place.extension);
        assert places[|before| + k] == place;
      }
    }
  }

  lemma EarlierModule(join: (string, string) -> string, packages: seq<ExtensionPackage>, place: Place,
                      primary: string, secondary: Option<string>, module_: string)
    requires packages != [] && ModuleAt(join, packages[..|packages| - 1], place, primary, secondary, module_)
    ensures place.package < |packages| - 1 && ModuleAt(join, packages, place, primary, secondary, module_)
  {
    var init := packages[..|packages| - 1];
    var path :| ContributesAt(init, place, primary, secondary, path) && module_ == join(init[place.package].name, path);
    assert ContributesAt(packages, place, primary, secondary, path);
  }

  lemma LastModule(join: (string, string) -> string, packages: seq<ExtensionPackage>, place: Place,
                   primary: string, secondary: Option<string>, module_: string)
    requires packages != [] && ModuleAt(join, [packages[|packages| - 1]], place, primary, secondary, module_)
    ensures place.package == 0
    ensures ModuleAt(join, packages, Place(|packages| - 1, place.extension), primary, secondary, module_)
  {
    var last := [packages[|packages| - 1]];
    var path :| ContributesAt(last, place, primary, secondary, path) && module_ == join(last[place.package].name, path);
    assert ContributesAt(packages, Place(|packages| - 1, place.extension), primary, secondary, path);
  }

  lemma PlacesIncrease(join: (string, string) -> string, packages: seq<ExtensionPackage>, primary: string,
                       secondary: Option<string>, before: seq<Place>, modules: seq<string>, own: seq<Place>,
                       ownModules: seq<string>)
    requires packages != []
    requires AreContributions(join, packages[..|packages| - 1], primary, secondary, before, modules)
    requires AreContributions(join, [packages[|packages| - 1]], primary, secondary, own, ownModules)
    ensures var places := before + Moved(own, |packages| - 1);
            forall k, l | 0 <= k < l < |places| :: Precedes(places[k], places[l])
  {
    var places := before + Moved(own, |packages| - 1);
    forall k, l | 0 <= k < l < |places| ensures Precedes(places[k], places[l]) {
      if k < |before| <= l {
        assert ModuleAt(join, packages[..|packages| - 1], before[k], primary, secondary, modules[k]);
      } else if |before| <= k {
        assert Precedes(own[k - |before|], own[l - |before|]);
      }
    }
  }

  /** With both properties the primary one counts, and the secondary one when it is the only one. */
  lemma PrimaryBeforeSecondary(name: Name)
    ensures var both := map["frontendElectron" := "electron", "frontend" := "browser"];
            ModulesOf((a, b) => a + "/" + b, name, [both, map["frontend" := "browser"], map["backend" := "node"]],
                      "frontendElectron", Some("frontend"))
            == [name + "/" + "electron", name + "/" + "browser"]
  {
    var both := map["frontendElectron" := "electron", "frontend" := "browser"];
    var extensions := [both, map["frontend" := "browser"], map["backend" := "node"]];
    assert extensions[..2][..1] == extensions[..1] && extensions[..1][..0] == [];
    assert |extensions[..1]| == 1 && |extensions[..2]| == 2;
    assert ModulesOf((a, b) => a + "/" + b, name, extensions[..1], "frontendElectron", Some("frontend"))
        == [name + "/" + "electron"];
  }

  function Values(m: OrderedMap): (r: seq<string>)
    ensures |r| == |m|
  {
    seq(|m|, k requires 0 <= k < |m| => m[k].1)
  }

  method ComputeModules(join: (string, string) -> string, packages: seq<ExtensionPackage>, primary: string,
                        secondary: Option<string>)
    returns (result: OrderedMap, ghost places: seq<Place>)
    ensures Numbered(result, primary, AllModules(join, packages, primary, secondary))
    ensures AreContributions(join, packages, primary, secondary, places, Values(result))
    ensures forall k | 0 <= k < |result| :: result[k].0 == primary + "_" + Decimal(k + 1)
    ensures forall i, j | 0 <= i < j < |result| :: result[i].0 != result[j].0
  {
    result := [];
    var moduleIndex := 1;
    for p := 0 to |packages|
      invariant Numbered(result, primary, AllModules(join, packages[..p], primary, secondary))
                && moduleIndex == |result| + 1
    {
      assert packages[..p + 1][..p] == packages[..p];
      result, moduleIndex := AddModules(join, packages[p], primary, secondary, result, moduleIndex,
                                        AllModules(join, packages[..p], primary, secondary));
    }
    assert packages[..|packages|] == packages;
    assert Values(result) == AllModules(join, packages, primary, secondary);
    places := ModulesAreContributions(join, packages, primary, secondary);
    forall i, j | 0 <= i < j < |result| ensures result[i].0 != result[j].0 {
      if result[i].0 == result[j].0 {
        KeysAreDistinct(primary, i + 1, j + 1);
      }
    }
  }

  /** The inner loop, over the extensions of one package. */
  method AddModules(join: (string, string) -> string, package: ExtensionPackage, primary: string,
                    secondary: Option<string>, m: OrderedMap, index: nat, ghost before: seq<string>)
    returns (result: OrderedMap, moduleIndex: nat)
    requires Numbered(m, primary, before) && index == |m| + 1
    ensures var own := ModulesOf(join, package.name, package.pck.theiaExtensions, primary, secondary);
            Numbered(result, primary, before + own)
    ensures moduleIndex == |result| + 1
  {
    result, moduleIndex := m, index;
    var extensions := package.pck.theiaExtensions;
    for x := 0 to |extensions|
      invariant moduleIndex == |result| + 1
      invariant Numbered(result, primary, before + ModulesOf(join, package.name, extensions[..x], primary, secondary))
    {
      assert extensions[..x + 1][..x] == extensions[..x];
      var modulePath := ModulePath(extensions[x], primary, secondary);
      if modulePath.Some? {
        NextKeyIsNew(result, primary, before + ModulesOf(join, package.name, extensions[..x], primary, secondary));
        MapSetNew(result, Key(primary, moduleIndex), join(package.name, modulePath.value));
        result := MapSet(result, Key(primary, moduleIndex), join(package.name, modulePath.value));
        moduleIndex := moduleIndex + 1;
      }
    }
    assert extensions[..|extensions|] == extensions;
  }

  lemma NextKeyIsNew(m: OrderedMap, primary: string, modules: seq<string>)
    requires Numbered(m, primary, modules)
    ensures forall i | 0 <= i < |m| :: m[i].0 != Key(primary, |m| + 1)
  {
    forall i | 0 <= i < |m| ensures m[i].0 != Key(primary, |m| + 1) {
      if m[i].0 == Key(primary, |m| + 1) {
        KeysAreDistinct(primary, i + 1, |m| + 1);
      }
    }
  }

  /** Where the modules of package `i` start. */
  function Start(join: (string, string) -> string, packages: seq<ExtensionPackage>, primary: string,
                 secondary: Option<string>, i: nat): nat
    requires i <= |packages|
  {
    |AllModules(join, packages[..i], primary, secondary)|
  }

  lemma {:induction false} EarlierPackagesFirst(join: (string, string) -> string, packages: seq<ExtensionPackage>,
                                                primary: string, secondary: Option<string>, i: nat)
    requires i <= |packages|
    ensures AllModules(join, packages[..i], primary, secondary) <= AllModules(join, packages, primary, secondary)
  {
    if i == |packages| {
      assert packages[..i] == packages;
    } else {
      var init := packages[..|packages| - 1];
      EarlierPackagesFirst(join, init, primary, secondary, i);
      assert init[..i] == packages[..i];
    }
  }

  lemma ModulesAreContiguous(join: (string, string) -> string, packages: seq<ExtensionPackage>, primary: string,
                             secondary: Option<string>, i: nat, j: nat)
    requires i < j <= |packages|
    ensures var all := AllModules(join, packages, primary, secondary);
            var own := ModulesOf(join, packages[i].name, packages[i].pck.theiaExtensions, primary, secondary);
            var start := Start(join, packages, primary, secondary, i);
            && start + |own| <= Start(join, packages, primary, secondary, j) <= |all|
            && all[start..start + |own|] == own
  {
    var all := AllModules(join, packages, primary, secondary);
    var own := ModulesOf(join, packages[i].name, packages[i].pck.theiaExtensions, primary, secondary);
    var before := AllModules(join, packages[..i], primary, secondary);
    var upTo := AllModules(join, packages[..i + 1], primary, secondary);
    assert upTo == before + own by { assert packages[..i + 1][..i] == packages[..i]; }
    assert upTo <= all by { EarlierPackagesFirst(join, packages, primary, secondary, i + 1); }
    SliceOfPrefix(before, own, all);
    StartsGrow(join, packages, primary, secondary, i + 1, j);
  }

  lemma SliceOfPrefix(before: seq<string>, own: seq<string>, all: seq<string>)
    requires before + own <= all
    ensures all[|before|..|before| + |own|] == own
  {
    assert (before + own)[|before|..] == own;
  }

  lemma StartsGrow(join: (string, string) -> string, packages: seq<ExtensionPackage>, primary: string,
                   secondary: Option<string>, i: nat, j: nat)
    requires i <= j <= |packages|
    ensures Start(join, packages, primary, secondary, i) <= Start(join, packages, primary, secondary, j)
    ensures Start(join, packages, primary, secondary, j) <= |AllModules(join, packages, primary, secondary)|
  {
    EarlierPackagesFirst(join, packages, primary, secondary, j);
    EarlierPackagesFirst(join, packages[..j], primary, secondary, i);
    assert packages[..j][..i] == packages[..i];
  }

  /**
   * Over the order of the collector: every module of a dependency is listed before every module of
   * a package that depends on it, unless the two are on one parent chain of a cycle.
   */
  lemma DependencyModulesComeFirst(join: (string, string) -> string, env: Environment, primary: string,
                                   secondary: Option<string>, i: nat, j: nat)
    requires env.Valid() && i < |env.Collect().sorted| && j < |env.Collect().sorted|
    requires env.Collect().sorted[i].pck.DependsOn(env.Collect().sorted[j].name)
    requires env.Collect().sorted[j] !in Chain(Some(env.Collect().sorted[i]))
    ensures var packages := env.Collect().sorted;
            var own := ModulesOf(join, packages[j].name, packages[j].pck.theiaExtensions, primary, secondary);
            var all := AllModules(join, packages, primary, secondary);
            var start := Start(join, packages, primary, secondary, j);
            && start + |own| <= Start(join, packages, primary, secondary, i) <= |all|
            && all[start..start + |own|] == own
  {
    env.DependenciesComeFirst(i, j);
    ModulesAreContiguous(join, env.Collect().sorted, primary, secondary, j, i);
  }
}
