/**
 * `findPackageJson` and `firstTime` of the lint rule `shared-dependencies.js`. A directory is the
 * sequence of its path components, the root being the empty one.
 */
module PackageLookup {
  import opened Wrappers

  type Dir = seq<string>

  datatype FoundPackageJson = FoundPackageJson(directory: Dir, content: string)

  /** `path.dirname`, which maps the root to itself. */
  function Dirname(d: Dir): Dir {
    if d == [] then [] else d[..|d| - 1]
  }

  /** The directories that hold a package.json, and its content. */
  type Packages = map<Dir, string>

  /** The nearest package.json at or above `d`. */
  function Nearest(packages: Packages, d: Dir): Option<FoundPackageJson>
    decreases |d|
  {
    if d in packages then Some(FoundPackageJson(d, packages[d]))
    else if d == [] then None
    else Nearest(packages, Dirname(d))
  }

  /** `Nearest` is the longest prefix of `d` that holds a package.json. */
  lemma {:induction false} NearestIsLongestPrefix(packages: Packages, d: Dir)
    ensures match Nearest(packages, d)
            case None => forall p | p <= d :: p !in packages
            case Some(f) =>
              && f.directory <= d && f.directory in packages && packages[f.directory] == f.content
              && forall p | p <= d && p in packages :: p <= f.directory
    decreases |d|
  {
    if d !in packages && d != [] {
      NearestIsLongestPrefix(packages, Dirname(d));
      forall p | p <= d && p in packages ensures p <= Dirname(d) {
        assert p == d[..|p|] && d == d[..|d|];
        assert |p| < |d| && Dirname(d)[..|p|] == d[..|p|];
      }
    }
  }

  /** A file that is linted: its path, whether it is a directory itself. */
  datatype File = File(path: Dir, isDirectory: bool) {
    function Start(): Dir {
      if isDirectory then path else Dirname(path)
    }
  }

  /**
   * What the search should return. The loop condition looks at the starting path, not at the
   * directory it has come to, so it only tells whether the search begins.
   */
  function Expected(packages: Packages, from: File): Option<FoundPackageJson> {
    if from.path == [] then None else Nearest(packages, from.Start())
  }

  /** The search comes to an end: it does not begin, or some directory above has a package.json. */
  ghost predicate Ends(packages: Packages, from: File) {
    from.path == [] || Nearest(packages, from.Start()).Some?
  }

  /** Where the uncached loop is after `n` iterations that found nothing. */
  function Current(from: File, n: nat): Dir {
    if n == 0 then from.Start() else Dirname(Current(from, n - 1))
  }

  lemma {:induction false} CurrentIsPrefix(from: File, n: nat)
    ensures Current(from, n) == from.Start()[..if n <= |from.Start()| then |from.Start()| - n else 0]
  {
    if n > 0 {
      CurrentIsPrefix(from, n - 1);
    }
  }

  /** The loop ends exactly then: otherwise every iteration, at the root too, finds nothing and goes on. */
  lemma LoopEndsIffPackageAbove(packages: Packages, from: File)
    ensures Ends(packages, from) <==> from.path == [] || exists n :: Current(from, n) in packages
  {
    var d := from.Start();
    NearestIsLongestPrefix(packages, d);
    if n: nat :| Current(from, n) in packages {
      CurrentIsPrefix(from, n);
      assert Current(from, n) <= d;
    }
    if Nearest(packages, d).Some? {
      var p := Nearest(packages, d).value.directory;
      CurrentIsPrefix(from, |d| - |p|);
      assert Current(from, |d| - |p|) == p;
    }
  }

  class SharedDependenciesRule {
    const packages: Packages
    const dependsOnTheiaCore: string -> bool
    var findPackageJsonCache: map<Dir, FoundPackageJson>
    var firstTimeCache: set<Dir>

    constructor (packages: Packages, dependsOnTheiaCore: string -> bool)
      ensures Valid() && firstTimeCache == {} && this.packages == packages
              && this.dependsOnTheiaCore == dependsOnTheiaCore
    {
      this.packages, this.dependsOnTheiaCore := packages, dependsOnTheiaCore;
      findPackageJsonCache, firstTimeCache := map[], {};
    }

    /** Whatever is cached for a directory is what the uncached search finds there. */
    ghost predicate Valid()
      reads this
    {
      forall d | d in findPackageJsonCache :: Nearest(packages, d) == Some(findPackageJsonCache[d])
    }

    /** Iteration `n` of the loop returns: the directory it looks at is cached or has a package.json. */
    ghost predicate Returns(from: File, n: nat)
      reads this
    {
      Current(from, n) in findPackageJsonCache || Current(from, n) in packages
    }

    /** Whatever is cached, the loop ends exactly when the path is the root or a package.json is above. */
    lemma CachedLoopEndsIffPackageAbove(from: File)
      requires Valid()
      ensures Ends(packages, from) <==> from.path == [] || exists n: nat :: Returns(from, n)
    {
      LoopEndsIffPackageAbove(packages, from);
      if n: nat :| Current(from, n) in packages {
        assert Returns(from, n);
      }
      if n: nat :| Returns(from, n) && Current(from, n) in findPackageJsonCache {
        NearestIsLongestPrefix(packages, Current(from, n));
        NearestIsLongestPrefix(packages, from.Start());
        CurrentIsPrefix(from, n);
        var p := findPackageJsonCache[Current(from, n)].directory;
        assert p <= from.Start();
      }
    }

    /**
     * An input on which it never ends: a file in a tree without any package.json. No iteration
     * returns, and from some iteration on the loop looks at the root again and again.
     */
    lemma SearchWithoutPackageNeverEnds(from: File, n: nat)
      requires Valid() && from.path != [] && packages == map[]
      ensures !Ends(packages, from) && !Returns(from, n)
      ensures n >= |from.Start()| ==> Current(from, n) == []
    {
      CachedLoopEndsIffPackageAbove(from);
      NearestIsLongestPrefix(packages, from.Start());
      CurrentIsPrefix(from, n);
    }

    /**
     * `d` is the deepest directory with a package.json among those that a path leads through, its own one
     * only if it is a directory.
     */
    ghost predicate IsDeepestAbove(from: File, d: Dir) {
      LeadsThrough(from, d) && d in packages && forall p | LeadsThrough(from, p) && p in packages :: |p| <= |d|
    }

    ghost predicate LeadsThrough(from: File, p: Dir) {
      p <= from.path && (p == from.path ==> from.isDirectory)
    }

    /** What the search returns, in terms of the path of the file alone. */
    lemma ExpectedIsDeepestAbove(from: File)
      requires Ends(packages, from)
      ensures match Expected(packages, from)
              case None => from.path == []
              case Some(f) =>
                from.path != [] && IsDeepestAbove(from, f.directory) && f.content == packages[f.directory]
    {
      NearestIsLongestPrefix(packages, from.Start());
      forall p | LeadsThrough(from, p) ensures p <= from.Start() {
        if !from.isDirectory {
          assert |p| < |from.path| && p == from.path[..|p|] && from.Start()[..|p|] == from.path[..|p|];
        }
      }
    }

    /** `tried` is where the loop has been, the directories before the last one having nothing. */
    ghost predicate OnTheWay(cache: map<Dir, FoundPackageJson>, from: File, tried: seq<Dir>) {
      && tried != [] && (forall k | 0 <= k < |tried| :: tried[k] == Current(from, k))
      && forall k | 0 <= k < |tried| - 1 :: tried[k] !in cache && tried[k] !in packages
    }

    /** The cache after a search that returned `found` in the last directory of `tried`. */
    function After(cache: map<Dir, FoundPackageJson>, tried: seq<Dir>, found: FoundPackageJson)
      : map<Dir, FoundPackageJson>
      requires tried != []
    {
      if tried[|tried| - 1] in cache then cache else cache + map d | d in tried :: found
    }

    /** A cached directory ends the search; otherwise every directory on the way is cached. */
    ghost predicate CachedAfter(cache: map<Dir, FoundPackageJson>, from: File, found: FoundPackageJson,
                                after: map<Dir, FoundPackageJson>)
    {
      exists tried ::
        && OnTheWay(cache, from, tried) && after == After(cache, tried, found)
        && (tried[|tried| - 1] in cache || tried[|tried| - 1] in packages)
    }

    method FindPackageJson(from: File) returns (r: Option<FoundPackageJson>)
      requires Valid() && Ends(packages, from)
      modifies this`findPackageJsonCache
      ensures Valid() && r == Expected(packages, from)
      ensures if from.path == [] then findPackageJsonCache == old(findPackageJsonCache)
              else r.Some? && CachedAfter(old(findPackageJsonCache), from, r.value, findPackageJsonCache)
    {
      var current := from.Start();
      var tried := [current];
      ghost var cache := findPackageJsonCache;
      while from.path != []
        invariant Valid() && findPackageJsonCache == cache
        invariant OnTheWay(cache, from, tried) && current == tried[|tried| - 1]
        invariant from.path != [] ==>
                    Nearest(packages, current).Some? && Nearest(packages, current) == Nearest(packages, from.Start())
        invariant from.path != [] ==> forall d | d in tried :: Nearest(packages, d) == Nearest(packages, current)
        decreases |current|
      {
        if current in findPackageJsonCache {
          return Some(findPackageJsonCache[current]);
        }
        if current in packages {
          var packageJson := FoundPackageJson(current, packages[current]);
          CacheAll(tried, packageJson);
          assert findPackageJsonCache == After(cache, tried, packageJson);
          return Some(packageJson);
        }
        current := Dirname(current);
        tried := tried + [current];
      }
      r := None;
    }

    /** The loop that caches what was found for every directory that was tried. */
    method CacheAll(tried: seq<Dir>, packageJson: FoundPackageJson)
      requires Valid() && forall d | d in tried :: Nearest(packages, d) == Some(packageJson)
      modifies this`findPackageJsonCache
      ensures Valid()
      ensures findPackageJsonCache == old(findPackageJsonCache) + map d | d in tried :: packageJson
    {
      for i := 0 to |tried|
        invariant Valid()
        invariant findPackageJsonCache == old(findPackageJsonCache) + map d | d in tried[..i] :: packageJson
      {
        findPackageJsonCache := findPackageJsonCache[tried[i] := packageJson];
      }
    }

    method FirstTime(key: Dir) returns (first: bool)
      modifies this`firstTimeCache
      ensures first <==> key !in old(firstTimeCache)
      ensures firstTimeCache == old(firstTimeCache) + {key}
    {
      if key in firstTimeCache {
        return false;
      }
      firstTimeCache := firstTimeCache + {key};
      return true;
    }

    /** The package of a linted file, when the rule applies to it. */
    function PackageOf(from: File): Option<Dir> {
      match Expected(packages, from)
      case Some(f) => if dependsOnTheiaCore(f.content) then Some(f.directory) else None
      case None => None
    }

    /** One file: its package is checked if the rule applies to it and it comes for the first time. */
    method LintFile(file: File) returns (checked: Option<Dir>)
      requires Valid() && Ends(packages, file)
      modifies this
      ensures Valid()
      ensures checked == if PackageOf(file).Some? && PackageOf(file).value in old(firstTimeCache) then None
                         else PackageOf(file)
      ensures firstTimeCache == old(firstTimeCache)
                                + if PackageOf(file).Some? then {PackageOf(file).value} else {}
    {
      var packageJson := FindPackageJson(file);
      if packageJson.Some? && dependsOnTheiaCore(packageJson.value.content) {
        var first := FirstTime(packageJson.value.directory);
        if first {
          return Some(packageJson.value.directory);
        }
      }
      return None;
    }

    /**
     * Linting any files in any order: `checked` lists the packages whose dependencies were checked.
     * Each package that the rule applies to is checked, and none more than once.
     */
    method Lint(files: seq<File>) returns (checked: seq<Dir>)
      requires Valid() && firstTimeCache == {} && forall f | f in files :: Ends(packages, f)
      modifies this
      ensures Valid()
      ensures forall i, j | 0 <= i < j < |checked| :: checked[i] != checked[j]
      ensures forall d :: d in checked <==> exists f | f in files :: PackageOf(f) == Some(d)
    {
      checked := [];
      for n := 0 to |files|
        invariant Valid() && firstTimeCache == set d | d in checked
        invariant forall i, j | 0 <= i < j < |checked| :: checked[i] != checked[j]
        invariant forall d :: d in checked <==> exists f | f in files[..n] :: PackageOf(f) == Some(d)
      {
        ghost var before := checked;
        var package := LintFile(files[n]);
        if package.Some? {
          checked := checked + [package.value];
        }
        assert files[..n + 1] == files[..n] + [files[n]];
        forall d ensures d in checked <==> exists f | f in files[..n + 1] :: PackageOf(f) == Some(d) {
          assert d in checked <==> d in before || PackageOf(files[n]) == Some(d);
        }
      }
      assert files[..|files|] == files;
    }
  }
}
