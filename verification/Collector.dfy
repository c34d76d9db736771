/**
 * The extension package collector of `extension-package-collector.ts`: a depth-first walk over
 * package names with a visited set, a mutable parent and a post-order result.
 *
 * `Walk` is the state the walk changes. `Walk.chosen` records, for each visited name, what it
 * resolved to at its first visit: later visits from other packages do not resolve it again.
 */
module Collector {
  import opened Wrappers

  type Name = string
  type Path = string

  datatype Dependency = Dependency(name: Name, versionRange: string)

  datatype NodePackage = NodePackage(
    version: string,
    dependencies: Option<seq<Dependency>>,
    peerDependencies: Option<seq<Dependency>>,
    isExtension: bool,
    theiaExtensions: seq<map<string, string>>)
  {
    function AllDependencies(): seq<Dependency> {
      (if dependencies.Some? then dependencies.value else [])
      + (if peerDependencies.Some? then peerDependencies.value else [])
    }

    ghost predicate DependsOn(n: Name) {
      n in NamesOf(AllDependencies())
    }
  }

  /** A package depends on a name that it lists in `dependencies` or in `peerDependencies`. */
  lemma DependsOnEither(pck: NodePackage, n: Name)
    ensures pck.DependsOn(n) <==>
            || (pck.dependencies.Some? && exists d | d in pck.dependencies.value :: d.name == n)
            || (pck.peerDependencies.Some? && exists d | d in pck.peerDependencies.value :: d.name == n)
  {
    if pck.DependsOn(n) {
      var d :| d in pck.AllDependencies() && d.name == n;
    }
  }

  /** The entry at which a list of dependencies has a name first. */
  ghost predicate FirstEntry(dependencies: Option<seq<Dependency>>, n: Name, versionRange: string) {
    dependencies.Some?
    && exists k: nat :: k < |dependencies.value| && dependencies.value[k] == Dependency(n, versionRange)
                        && forall j | 0 <= j < k :: dependencies.value[j].name != n
  }

  ghost predicate Lists(dependencies: Option<seq<Dependency>>, n: Name) {
    dependencies.Some? && exists d | d in dependencies.value :: d.name == n
  }

  function NamesOf(dependencies: seq<Dependency>): set<Name> {
    set d | d in dependencies :: d.name
  }

  /** The first entry for a name: a name in `dependencies` hides the same name in `peerDependencies`. */
  function Lookup(dependencies: seq<Dependency>, n: Name): (d: Option<Dependency>)
    ensures d.Some? ==> d.value in dependencies && d.value.name == n
  {
    if dependencies == [] then None
    else if dependencies[0].name == n then Some(dependencies[0])
    else Lookup(dependencies[1..], n)
  }

  lemma {:induction false} LookupFirst(dependencies: seq<Dependency>, k: nat)
    requires k < |dependencies| && forall j | 0 <= j < k :: dependencies[j].name != dependencies[k].name
    ensures Lookup(dependencies, dependencies[k].name) == Some(dependencies[k])
  {
    if k > 0 {
      LookupFirst(dependencies[1..], k - 1);
    }
  }

  lemma {:induction false} LookupOfConcat(a: seq<Dependency>, b: seq<Dependency>, n: Name)
    ensures Lookup(a + b, n) == if Lookup(a, n).Some? then Lookup(a, n) else Lookup(b, n)
  {
    if a == [] {
      assert a + b == b;
    } else {
      assert (a + b)[1..] == a[1..] + b;
      LookupOfConcat(a[1..], b, n);
    }
  }

  lemma {:induction false} LookupMeans(dependencies: seq<Dependency>, n: Name)
    ensures match Lookup(dependencies, n)
            case Some(d) => d.name == n && FirstEntry(Some(dependencies), n, d.versionRange)
            case None => !Lists(Some(dependencies), n)
  {
    if dependencies != [] && dependencies[0].name != n {
      LookupMeans(dependencies[1..], n);
      match Lookup(dependencies[1..], n) {
        case Some(d) =>
          var k: nat :| k < |dependencies[1..]| && dependencies[1..][k] == d
                        && forall j | 0 <= j < k :: dependencies[1..][j].name != n;
          assert dependencies[k + 1] == d;
          assert forall j | 1 <= j < k + 1 :: dependencies[j] == dependencies[1..][j - 1];
        case None =>
          assert forall d | d in dependencies :: d == dependencies[0] || d in dependencies[1..];
      }
    }
  }

  lemma LookupIsFirstEntry(pck: NodePackage, n: Name)
    requires Lookup(pck.AllDependencies(), n).Some?
    ensures var range := Lookup(pck.AllDependencies(), n).value.versionRange;
            if Lists(pck.dependencies, n) then FirstEntry(pck.dependencies, n, range)
            else FirstEntry(pck.peerDependencies, n, range)
  {
    var own := if pck.dependencies.Some? then pck.dependencies.value else [];
    var peer := if pck.peerDependencies.Some? then pck.peerDependencies.value else [];
    LookupOfConcat(own, peer, n);
    LookupMeans(own, n);
    LookupMeans(peer, n);
  }

  datatype ExtensionPackage = ExtensionPackage(
    name: Name, packagePath: Path, installedVersion: string, versionRange: string,
    transitive: bool, parent: Option<ExtensionPackage>, pck: NodePackage)

  /** The package itself, its parent, and so on up to a package reached from the root. */
  function Chain(p: Option<ExtensionPackage>): seq<ExtensionPackage> {
    match p
    case None => []
    case Some(e) => [e] + Chain(e.parent)
  }

  ghost predicate OnChain(n: Name, p: Option<ExtensionPackage>) {
    exists e | e in Chain(p) :: e.name == n
  }

  datatype Walk = Walk(chosen: map<Name, Option<Path>>, sorted: seq<ExtensionPackage>)

  ghost predicate Collected(sorted: seq<ExtensionPackage>, n: Name) {
    exists i | 0 <= i < |sorted| :: sorted[i].name == n
  }

  /**
   * The installed packages. `universe` is the finite set of names that occur in any of them; the
   * walk terminates because it never visits a name of it twice.
   */
  datatype Environment = Environment(
    resolveModule: (Path, Name) -> Option<Path>, readPackage: Path -> NodePackage,
    rootPath: Path, root: NodePackage, universe: set<Name>)
  {
    ghost predicate Valid() {
      && root.dependencies.Some?
      && NamesOf(root.AllDependencies()) <= universe
      && forall p :: NamesOf(readPackage(p).AllDependencies()) <= universe
    }

    /** An empty path counts as unresolved. */
    function Resolve(from: Path, n: Name): Option<Path> {
      var p := resolveModule(from, n);
      if p == Some("") then None else p
    }

    predicate IsExtension(p: Option<Path>) {
      p.Some? && readPackage(p.value).isExtension
    }

    function NewPackage(d: Dependency, p: Path, parent: Option<ExtensionPackage>): ExtensionPackage
      requires root.dependencies.Some?
    {
      var pck := readPackage(p);
      ExtensionPackage(d.name, p, pck.version, d.versionRange, d.name !in NamesOf(root.dependencies.value), parent, pck)
    }

    ghost function CollectPackages(w: Walk, from: Path, parent: Option<ExtensionPackage>,
                                   todo: seq<Dependency>): (r: Walk)
      requires Valid() && NamesOf(todo) <= universe
      ensures w.chosen.Keys <= r.chosen.Keys
      decreases universe - w.chosen.Keys, |todo|, 1
    {
      if todo == [] then w
      else
        assert NamesOf(todo[1..]) <= NamesOf(todo) && todo[0] in todo;
        var w1 := CollectPackage(w, from, parent, todo[0]);
        assert universe - w1.chosen.Keys <= universe - w.chosen.Keys;
        CollectPackages(w1, from, parent, todo[1..])
    }

    ghost function CollectPackage(w: Walk, from: Path, parent: Option<ExtensionPackage>, d: Dependency): (r: Walk)
      requires Valid() && d.name in universe
      ensures w.chosen.Keys <= r.chosen.Keys
      decreases universe - w.chosen.Keys, 0, 0
    {
      if d.name in w.chosen then w
      else
        var w1 := Visit(w, from, d.name);
        if !IsExtension(w1.chosen[d.name]) then w1
        else
          var e := NewPackage(d, w1.chosen[d.name].value, parent);
          assert d.name in universe - w.chosen.Keys && d.name !in universe - w1.chosen.Keys;
          Push(CollectPackages(w1, e.packagePath, Some(e), e.pck.AllDependencies()), e)
    }

    function Visit(w: Walk, from: Path, n: Name): Walk {
      w.(chosen := w.chosen[n := Resolve(from, n)])
    }

    function Push(w: Walk, e: ExtensionPackage): Walk {
      w.(sorted := w.sorted + [e])
    }

    ghost function Collect(): Walk
      requires Valid()
    {
      CollectPackages(Walk(map[], []), rootPath, None, root.AllDependencies())
    }

    // ----- The invariant of the walk, `parent` being the packages that are still open

    /** `e` is what its name resolved to, seen from the package that reached it first. */
    ghost predicate Sound(chosen: map<Name, Option<Path>>, e: ExtensionPackage) {
      && e.name in chosen && chosen[e.name] == Some(e.packagePath)
      && e.pck == readPackage(e.packagePath) && e.pck.isExtension && e.installedVersion == e.pck.version
      && Reached(e)
    }

    ghost predicate Reached(e: ExtensionPackage) {
      && (e.transitive <==> root.dependencies.Some? && e.name !in NamesOf(root.dependencies.value))
      && Lookup(DependenciesOf(e.parent), e.name) == Some(Dependency(e.name, e.versionRange))
      && match e.parent
         case None => Resolve(rootPath, e.name) == Some(e.packagePath)
         case Some(p) => Resolve(p.packagePath, e.name) == Some(e.packagePath)
    }

    /** The dependencies of the root, or of the package `parent`. */
    function DependenciesOf(parent: Option<ExtensionPackage>): seq<Dependency> {
      match parent
      case None => root.AllDependencies()
      case Some(p) => p.pck.AllDependencies()
    }

    /** Each dependency of the package at `i` was visited; if it is an extension, it is earlier or on the chain. */
    ghost predicate EdgesBack(w: Walk, i: nat)
      requires i < |w.sorted|
    {
      forall n | w.sorted[i].pck.DependsOn(n) ::
        && n in w.chosen
        && (IsExtension(w.chosen[n]) ==> Collected(w.sorted[..i], n) || OnChain(n, Some(w.sorted[i])))
    }

    ghost predicate ParentLater(w: Walk, parent: Option<ExtensionPackage>, i: nat)
      requires i < |w.sorted|
    {
      var p := w.sorted[i].parent;
      p.None? || p.value in w.sorted[i + 1..] || p.value in Chain(parent)
    }

    ghost predicate OpenChain(w: Walk, parent: Option<ExtensionPackage>) {
      forall e | e in Chain(parent) :: Sound(w.chosen, e) && !Collected(w.sorted, e.name)
    }

    ghost predicate SoundSorted(w: Walk) {
      && (forall i, j | 0 <= i < j < |w.sorted| :: w.sorted[i].name != w.sorted[j].name)
      && forall e | e in w.sorted :: Sound(w.chosen, e)
    }

    ghost predicate Complete(w: Walk, parent: Option<ExtensionPackage>) {
      forall n | n in w.chosen && IsExtension(w.chosen[n]) :: Collected(w.sorted, n) || OnChain(n, parent)
    }

    /** What `n` resolved to was asked from the root or a collected or open package that depends on it. */
    ghost predicate VisitedFrom(w: Walk, parent: Option<ExtensionPackage>, n: Name)
      requires n in w.chosen
    {
      || (root.DependsOn(n) && w.chosen[n] == Resolve(rootPath, n))
      || exists e | e in w.sorted || e in Chain(parent) ::
           e.pck.DependsOn(n) && w.chosen[n] == Resolve(e.packagePath, n)
    }

    ghost predicate Visited(w: Walk, parent: Option<ExtensionPackage>) {
      forall n {:trigger VisitedFrom(w, parent, n)} | n in w.chosen :: VisitedFrom(w, parent, n)
    }

    ghost predicate Invariant(w: Walk, parent: Option<ExtensionPackage>) {
      && SoundSorted(w) && OpenChain(w, parent) && Complete(w, parent) && Visited(w, parent)
      && (forall i | 0 <= i < |w.sorted| :: EdgesBack(w, i))
      && (forall i | 0 <= i < |w.sorted| :: ParentLater(w, parent, i))
    }

    /**
     * Where a loop over dependencies stands: in the root or in the innermost open package, with the
     * entries before `todo` visited.
     */
    ghost predicate At(w: Walk, from: Path, parent: Option<ExtensionPackage>, todo: seq<Dependency>) {
      var all := DependenciesOf(parent);
      && AtPackage(from, parent)
      && |todo| <= |all| && todo == all[|all| - |todo|..]
      && forall k | 0 <= k < |all| - |todo| :: all[k].name in w.chosen
    }

    ghost predicate AtPackage(from: Path, parent: Option<ExtensionPackage>) {
      from == match parent case None => rootPath case Some(p) => p.packagePath
    }

    /** `d` is the first entry for its name. */
    ghost predicate AtOne(from: Path, parent: Option<ExtensionPackage>, d: Dependency) {
      AtPackage(from, parent) && Lookup(DependenciesOf(parent), d.name) == Some(d)
    }

    lemma AtFirst(w: Walk, from: Path, parent: Option<ExtensionPackage>, todo: seq<Dependency>)
      requires At(w, from, parent, todo) && todo != [] && todo[0].name !in w.chosen
      ensures AtOne(from, parent, todo[0])
    {
      var all := DependenciesOf(parent);
      LookupFirst(all, |all| - |todo|);
    }

    lemma AtRest(w: Walk, w1: Walk, from: Path, parent: Option<ExtensionPackage>, todo: seq<Dependency>)
      requires At(w, from, parent, todo) && todo != []
      requires w.chosen.Keys <= w1.chosen.Keys && todo[0].name in w1.chosen
      ensures At(w1, from, parent, todo[1..])
      ensures NamesOf(todo) == {todo[0].name} + NamesOf(todo[1..])
    {
      var all := DependenciesOf(parent);
      assert todo == [todo[0]] + todo[1..];
      assert all[|all| - |todo|] == todo[0];
      forall k | 0 <= k < |all| - |todo| + 1 ensures all[k].name in w1.chosen {
      }
    }

    lemma VisitKeepsVisited(w: Walk, from: Path, parent: Option<ExtensionPackage>, d: Dependency)
      requires Visited(w, parent) && d.name !in w.chosen && AtOne(from, parent, d)
      ensures Visited(Visit(w, from, d.name), parent)
    {
      var w1 := Visit(w, from, d.name);
      forall m | m in w1.chosen ensures VisitedFrom(w1, parent, m) {
        if m != d.name {
          assert VisitedFrom(w, parent, m);
        }
      }
    }

    lemma OpenKeepsVisited(w: Walk, e: ExtensionPackage)
      requires Visited(w, e.parent)
      ensures Visited(w, Some(e))
    {
      forall n | n in w.chosen ensures VisitedFrom(w, Some(e), n) {
        assert VisitedFrom(w, e.parent, n);
      }
    }

    lemma PushKeepsVisited(w: Walk, e: ExtensionPackage)
      requires Visited(w, Some(e))
      ensures Visited(Push(w, e), e.parent)
    {
      var w1 := Push(w, e);
      assert e in w1.sorted;
      forall n | n in w.chosen ensures VisitedFrom(w1, e.parent, n) {
        assert VisitedFrom(w, Some(e), n);
      }
    }

    lemma VisitKeepsInvariant(w: Walk, from: Path, parent: Option<ExtensionPackage>, d: Dependency)
      requires Invariant(w, parent) && d.name !in w.chosen && AtOne(from, parent, d)
      ensures var n := d.name;
              var w1 := Visit(w, from, n);
              && SoundSorted(w1) && OpenChain(w1, parent) && Visited(w1, parent)
              && !Collected(w.sorted, n) && !OnChain(n, parent)
              && (forall i | 0 <= i < |w.sorted| :: EdgesBack(w1, i) && ParentLater(w1, parent, i))
              && (!IsExtension(w1.chosen[n]) ==> Invariant(w1, parent))
    {
      var n := d.name;
      var w1 := Visit(w, from, n);
      forall i | 0 <= i < |w.sorted| ensures EdgesBack(w1, i) && ParentLater(w1, parent, i) && w.sorted[i].name != n {
        assert EdgesBack(w, i) && ParentLater(w, parent, i) && Sound(w.chosen, w.sorted[i]);
      }
      VisitKeepsVisited(w, from, parent, d);
    }

    lemma OpenKeepsInvariant(w: Walk, from: Path, parent: Option<ExtensionPackage>, d: Dependency)
      requires Valid() && Invariant(w, parent) && d.name !in w.chosen && AtOne(from, parent, d)
      requires IsExtension(Resolve(from, d.name))
      ensures var e := NewPackage(d, Resolve(from, d.name).value, parent);
              Invariant(Visit(w, from, d.name), Some(e)) && Reached(e)
    {
      var w1 := Visit(w, from, d.name);
      var e := NewPackage(d, Resolve(from, d.name).value, parent);
      VisitKeepsInvariant(w, from, parent, d);
      assert Sound(w1.chosen, e);
      assert Chain(Some(e)) == [e] + Chain(parent) && e in Chain(Some(e));
      OpenKeepsVisited(w1, e);
      assert forall i | 0 <= i < |w.sorted| :: ParentLater(w1, parent, i) ==> ParentLater(w1, Some(e), i);
    }

    lemma PushKeepsInvariant(w: Walk, e: ExtensionPackage)
      requires Invariant(w, Some(e)) && !OnChain(e.name, e.parent)
      requires forall n | e.pck.DependsOn(n) :: n in w.chosen
      ensures Invariant(Push(w, e), e.parent)
    {
      var w1 := Push(w, e);
      assert Chain(Some(e)) == [e] + Chain(e.parent) && e in Chain(Some(e));
      PushKeepsVisited(w, e);
      forall n | Collected(w.sorted, n) || n == e.name ensures Collected(w1.sorted, n) {
        if Collected(w.sorted, n) {
          var i :| 0 <= i < |w.sorted| && w.sorted[i].name == n;
          assert w1.sorted[i].name == n;
        } else {
          assert w1.sorted[|w.sorted|].name == n;
        }
      }
      forall i | 0 <= i < |w1.sorted| ensures EdgesBack(w1, i) && ParentLater(w1, e.parent, i) {
        if i < |w.sorted| {
          assert EdgesBack(w, i) && ParentLater(w, Some(e), i) && w1.sorted[..i] == w.sorted[..i];
          assert w1.sorted[i + 1..] == w.sorted[i + 1..] + [e];
        } else {
          assert w1.sorted[..i] == w.sorted;
        }
      }
    }

    lemma {:induction false} PackagesKeepInvariant(w: Walk, from: Path, parent: Option<ExtensionPackage>,
                                                   todo: seq<Dependency>)
      requires Valid() && NamesOf(todo) <= universe && Invariant(w, parent) && At(w, from, parent, todo)
      ensures var r := CollectPackages(w, from, parent, todo);
              Invariant(r, parent) && NamesOf(todo) <= r.chosen.Keys
      decreases universe - w.chosen.Keys, |todo|, 1
    {
      if todo != [] {
        assert NamesOf(todo[1..]) <= NamesOf(todo) && todo[0] in todo;
        var w1 := CollectPackage(w, from, parent, todo[0]);
        if todo[0].name !in w.chosen {
          AtFirst(w, from, parent, todo);
        }
        PackageKeepsInvariant(w, from, parent, todo[0]);
        assert universe - w1.chosen.Keys <= universe - w.chosen.Keys;
        AtRest(w, w1, from, parent, todo);
        PackagesKeepInvariant(w1, from, parent, todo[1..]);
      }
    }

    lemma {:induction false} PackageKeepsInvariant(w: Walk, from: Path, parent: Option<ExtensionPackage>, d: Dependency)
      requires Valid() && d.name in universe && Invariant(w, parent)
      requires d.name !in w.chosen ==> AtOne(from, parent, d)
      ensures var r := CollectPackage(w, from, parent, d);
              Invariant(r, parent) && d.name in r.chosen
      decreases universe - w.chosen.Keys, 0, 0
    {
      if d.name !in w.chosen {
        var w1 := Visit(w, from, d.name);
        VisitKeepsInvariant(w, from, parent, d);
        if IsExtension(w1.chosen[d.name]) {
          var e := NewPackage(d, w1.chosen[d.name].value, parent);
          OpenKeepsInvariant(w, from, parent, d);
          assert d.name in universe - w.chosen.Keys && d.name !in universe - w1.chosen.Keys;
          PackagesKeepInvariant(w1, e.packagePath, Some(e), e.pck.AllDependencies());
          PushKeepsInvariant(CollectPackages(w1, e.packagePath, Some(e), e.pck.AllDependencies()), e);
        }
      }
    }

    // ----- What the result is

    lemma CollectInvariant()
      requires Valid()
      ensures Invariant(Collect(), None) && NamesOf(root.AllDependencies()) <= Collect().chosen.Keys
    {
      assert At(Walk(map[], []), rootPath, None, root.AllDependencies());
      PackagesKeepInvariant(Walk(map[], []), rootPath, None, root.AllDependencies());
    }

    /**
     * For every dependency graph: a dependency of a collected package that is collected too comes
     * before it, or is the package itself, or one of its ancestors.
     */
    lemma DependenciesComeFirst(i: nat, j: nat)
      requires Valid() && i < |Collect().sorted| && j < |Collect().sorted|
      requires Collect().sorted[i].pck.DependsOn(Collect().sorted[j].name)
      ensures j < i || Collect().sorted[j] in Chain(Some(Collect().sorted[i]))
    {
      var w := Collect();
      CollectInvariant();
      var p, q := w.sorted[i], w.sorted[j];
      assert EdgesBack(w, i) && Sound(w.chosen, q);
      if Collected(w.sorted[..i], q.name) {
        var k :| 0 <= k < i && w.sorted[..i][k].name == q.name;
        assert w.sorted[k].name == q.name;
      } else {
        var a :| a in Chain(Some(p)) && a.name == q.name;
        var k := ChainCollected(i, a);
      }
    }

    /** A package on the chain of the package at `i` is collected, at `i` or later. */
    lemma {:induction false} ChainCollected(i: nat, a: ExtensionPackage) returns (k: nat)
      requires Valid() && i < |Collect().sorted| && a in Chain(Some(Collect().sorted[i]))
      ensures i <= k < |Collect().sorted| && Collect().sorted[k] == a
      ensures forall j | 0 <= j < |Collect().sorted| && Collect().sorted[j].name == a.name :: j == k
      decreases |Collect().sorted| - i
    {
      var w := Collect();
      CollectInvariant();
      if a == w.sorted[i] {
        k := i;
      } else {
        var next := ParentPosition(i);
        k := ChainCollected(next, a);
      }
    }

    /** The parent chain is strictly increasing in result position. */
    lemma ParentPosition(i: nat) returns (k: nat)
      requires Valid() && i < |Collect().sorted| && Collect().sorted[i].parent.Some?
      ensures i < k < |Collect().sorted| && Collect().sorted[k] == Collect().sorted[i].parent.value
    {
      var w := Collect();
      CollectInvariant();
      assert ParentLater(w, None, i);
      var m :| 0 <= m < |w.sorted[i + 1..]| && w.sorted[i + 1..][m] == w.sorted[i].parent.value;
      k := i + 1 + m;
    }

    /** The parent of a collected package depends on it. */
    lemma ParentDepends(e: ExtensionPackage)
      requires Valid() && e in Collect().sorted
      ensures e.parent.Some? ==> e.name in NamesOf(readPackage(e.parent.value.packagePath).AllDependencies())
    {
      var i: nat :| i < |Collect().sorted| && Collect().sorted[i] == e;
      CollectedIsSound(i);
      if e.parent.Some? {
        var k := ParentPosition(i);
        CollectedIsSound(k);
      }
    }

    lemma CollectedIsSound(i: nat)
      requires Valid() && i < |Collect().sorted|
      ensures Sound(Collect().chosen, Collect().sorted[i])
    {
      CollectInvariant();
    }

    /**
     * A collected package in terms of the installation alone: the answer of `resolveModule` to the package
     * that reached it first, with the version range that this package has for it.
     */
    lemma CollectedFromParent(i: nat)
      requires Valid() && i < |Collect().sorted|
      ensures var e := Collect().sorted[i];
              var from := if e.parent.Some? then e.parent.value.packagePath else rootPath;
              var pck := if e.parent.Some? then readPackage(from) else root;
              && resolveModule(from, e.name) == Some(e.packagePath) && e.packagePath != ""
              && e.pck == readPackage(e.packagePath) && e.pck.isExtension && e.installedVersion == e.pck.version
              && (if Lists(pck.dependencies, e.name) then FirstEntry(pck.dependencies, e.name, e.versionRange)
                  else FirstEntry(pck.peerDependencies, e.name, e.versionRange))
              && (e.transitive <==> !Lists(root.dependencies, e.name))
    {
      var e := Collect().sorted[i];
      CollectedIsSound(i);
      if e.parent.Some? {
        var k := ParentPosition(i);
        CollectedIsSound(k);
      }
      LookupIsFirstEntry(if e.parent.Some? then e.parent.value.pck else root, e.name);
    }

    /**
     * The visited names in terms of the installation alone: exactly those that the root or a collected
     * package depends on, each with the answer of `resolveModule` to one of these, nothing being collected
     * for an empty or missing answer.
     */
    lemma VisitedFromDependents(n: Name)
      requires Valid()
      ensures var w := Collect();
              && (n in w.chosen <==> root.DependsOn(n) || exists e | e in w.sorted :: e.pck.DependsOn(n))
              && (n in w.chosen ==>
                    || (root.DependsOn(n) && AnswerIs(rootPath, n, w.chosen[n]))
                    || exists e | e in w.sorted :: e.pck.DependsOn(n) && AnswerIs(e.packagePath, n, w.chosen[n]))
              && (Collected(w.sorted, n) <==>
                    n in w.chosen && w.chosen[n].Some? && readPackage(w.chosen[n].value).isExtension)
    {
      var w := Collect();
      CollectInvariant();
      CollectsExactlyTheReachable();
      if n in w.chosen {
        assert VisitedFrom(w, None, n);
      }
      forall e | e in w.sorted && e.pck.DependsOn(n) ensures n in w.chosen {
        var i: nat :| i < |w.sorted| && w.sorted[i] == e;
        assert EdgesBack(w, i);
      }
    }

    /** `p` is what `resolveModule` answers, an empty path counting as none. */
    ghost predicate AnswerIs(from: Path, n: Name, p: Option<Path>) {
      if p.Some? then resolveModule(from, n) == p && p != Some("")
      else resolveModule(from, n) in {None, Some("")}
    }

    lemma CollectsEachNameOnce(i: nat, j: nat)
      requires Valid() && i < j < |Collect().sorted|
      ensures Collect().sorted[i].name != Collect().sorted[j].name
    {
      CollectInvariant();
    }

    /** `s` holds the root's dependencies and the dependencies of each extension package in it. */
    ghost predicate Closed(chosen: map<Name, Option<Path>>, s: set<Name>) {
      && NamesOf(root.AllDependencies()) <= s
      && forall n | n in s && n in chosen && IsExtension(chosen[n]) ::
           NamesOf(readPackage(chosen[n].value).AllDependencies()) <= s
    }

    /**
     * The walk visits exactly the names reachable from the root through extension packages, each
     * resolved as at its first visit, and collects exactly the visited names that are extensions.
     */
    lemma CollectsExactlyTheReachable()
      requires Valid()
      ensures var w := Collect();
              && Closed(w.chosen, w.chosen.Keys)
              && (forall s | Closed(w.chosen, s) :: w.chosen.Keys <= s)
              && (forall n | n in w.chosen :: VisitedFrom(w, None, n))
              && forall n :: Collected(w.sorted, n) <==> n in w.chosen && IsExtension(w.chosen[n])
    {
      var w := Collect();
      CollectInvariant();
      forall n | n in w.chosen && IsExtension(w.chosen[n])
        ensures Collected(w.sorted, n) && NamesOf(readPackage(w.chosen[n].value).AllDependencies()) <= w.chosen.Keys
      {
        assert Collected(w.sorted, n);
        var i :| 0 <= i < |w.sorted| && w.sorted[i].name == n;
        assert Sound(w.chosen, w.sorted[i]) && EdgesBack(w, i);
      }
      forall s | Closed(w.chosen, s) ensures w.chosen.Keys <= s {
        PackagesStayIn(Walk(map[], []), rootPath, None, root.AllDependencies(), w.chosen, s);
      }
      forall n | Collected(w.sorted, n) ensures n in w.chosen && IsExtension(w.chosen[n]) {
        var i :| 0 <= i < |w.sorted| && w.sorted[i].name == n;
        assert Sound(w.chosen, w.sorted[i]);
      }
    }

    ghost predicate Extends(more: map<Name, Option<Path>>, less: map<Name, Option<Path>>) {
      forall n | n in less :: n in more && more[n] == less[n]
    }

    lemma {:induction false} PackagesStayIn(w: Walk, from: Path, parent: Option<ExtensionPackage>,
                                            todo: seq<Dependency>, chosen: map<Name, Option<Path>>, s: set<Name>)
      requires Valid() && NamesOf(todo) <= universe * s && w.chosen.Keys <= s && Closed(chosen, s)
      requires Extends(chosen, CollectPackages(w, from, parent, todo).chosen)
      ensures CollectPackages(w, from, parent, todo).chosen.Keys <= s
      ensures Extends(CollectPackages(w, from, parent, todo).chosen, w.chosen)
      decreases universe - w.chosen.Keys, |todo|, 1
    {
      if todo != [] {
        assert NamesOf(todo[1..]) <= NamesOf(todo) && todo[0] in todo && todo[0].name in NamesOf(todo);
        var w1 := CollectPackage(w, from, parent, todo[0]);
        assert universe - w1.chosen.Keys <= universe - w.chosen.Keys;
        PackagesExtend(w1, from, parent, todo[1..]);
        PackageStaysIn(w, from, parent, todo[0], chosen, s);
        PackagesStayIn(w1, from, parent, todo[1..], chosen, s);
      }
    }

    lemma {:induction false} PackageStaysIn(w: Walk, from: Path, parent: Option<ExtensionPackage>, d: Dependency,
                                            chosen: map<Name, Option<Path>>, s: set<Name>)
      requires Valid() && d.name in universe * s && w.chosen.Keys <= s && Closed(chosen, s)
      requires Extends(chosen, CollectPackage(w, from, parent, d).chosen)
      ensures CollectPackage(w, from, parent, d).chosen.Keys <= s
      ensures Extends(CollectPackage(w, from, parent, d).chosen, w.chosen)
      decreases universe - w.chosen.Keys, 0, 0
    {
      if d.name !in w.chosen {
        var w1 := Visit(w, from, d.name);
        if IsExtension(w1.chosen[d.name]) {
          var e := NewPackage(d, w1.chosen[d.name].value, parent);
          assert d.name in universe - w.chosen.Keys && d.name !in universe - w1.chosen.Keys;
          PackagesExtend(w1, e.packagePath, Some(e), e.pck.AllDependencies());
          assert chosen[d.name] == w1.chosen[d.name];
          PackagesStayIn(w1, e.packagePath, Some(e), e.pck.AllDependencies(), chosen, s);
        }
      }
    }

    /** A name keeps what it resolved to at its first visit. */
    lemma {:induction false} PackagesExtend(w: Walk, from: Path, parent: Option<ExtensionPackage>,
                                            todo: seq<Dependency>)
      requires Valid() && NamesOf(todo) <= universe
      ensures Extends(CollectPackages(w, from, parent, todo).chosen, w.chosen)
      decreases universe - w.chosen.Keys, |todo|, 1
    {
      if todo != [] {
        assert NamesOf(todo[1..]) <= NamesOf(todo) && todo[0] in todo;
        var d := todo[0];
        var w1 := CollectPackage(w, from, parent, d);
        if d.name !in w.chosen {
          var v := Visit(w, from, d.name);
          if IsExtension(v.chosen[d.name]) {
            var e := NewPackage(d, v.chosen[d.name].value, parent);
            assert d.name in universe - w.chosen.Keys && d.name !in universe - v.chosen.Keys;
            PackagesExtend(v, e.packagePath, Some(e), e.pck.AllDependencies());
          }
        }
        assert universe - w1.chosen.Keys <= universe - w.chosen.Keys;
        PackagesExtend(w1, from, parent, todo[1..]);
      }
    }

    // ----- Topological order

    ghost predicate Topological(sorted: seq<ExtensionPackage>) {
      forall i, j | 0 <= i < |sorted| && 0 <= j < |sorted| && sorted[i].pck.DependsOn(sorted[j].name) :: j < i
    }

    /** `rank` proves that the collected packages have no dependency cycle: it falls along every edge. */
    ghost predicate Acyclic(sorted: seq<ExtensionPackage>, rank: seq<nat>) {
      && |rank| == |sorted|
      && forall i, j | 0 <= i < |sorted| && 0 <= j < |sorted| && sorted[i].pck.DependsOn(sorted[j].name) ::
           rank[j] < rank[i]
    }

    /** The documented topological order holds exactly when the collected packages have no cycle. */
    lemma TopologicalIffAcyclic()
      requires Valid()
      ensures Topological(Collect().sorted) <==> exists rank :: Acyclic(Collect().sorted, rank)
    {
      var sorted := Collect().sorted;
      if Topological(sorted) {
        assert Acyclic(sorted, seq(|sorted|, (i: nat) => i));
      }
      if rank :| Acyclic(sorted, rank) {
        forall i, j | 0 <= i < |sorted| && 0 <= j < |sorted| && sorted[i].pck.DependsOn(sorted[j].name) ensures j < i {
          DependenciesComeFirst(i, j);
          if j >= i {
            RankGrowsAlongChain(i, j, rank);
          }
        }
      }
    }

    lemma {:induction false} RankGrowsAlongChain(i: nat, j: nat, rank: seq<nat>)
      requires Valid() && Acyclic(Collect().sorted, rank)
      requires i < |rank| && j < |rank| && Collect().sorted[j] in Chain(Some(Collect().sorted[i]))
      ensures rank[i] <= rank[j]
      decreases |rank| - i
    {
      var sorted := Collect().sorted;
      CollectInvariant();
      if sorted[j] == sorted[i] {
        var k := ChainCollected(i, sorted[i]);
        assert j == k == i;
      } else {
        var k := ParentPosition(i);
        assert Sound(Collect().chosen, sorted[i]);
        RankGrowsAlongChain(k, j, rank);
      }
    }

    // ----- `dependent`

    /**
     * `dependent` of a collected package names the package at the top of its parent chain, which
     * the root depends on. It throws exactly for a package that the root itself reaches first and
     * does not list in `dependencies`, only in `peerDependencies`.
     */
    lemma DependentIsDirect(i: nat)
      requires Valid() && i < |Collect().sorted|
      ensures var e := Collect().sorted[i];
              match Dependent(e)
              case NotTransitive => e.name in NamesOf(root.dependencies.value)
              case Throws => e.parent.None? && e.name !in NamesOf(root.dependencies.value) && root.DependsOn(e.name)
              case DependentName(n) =>
                && e.parent.Some? && n == Top(e).name && root.DependsOn(n)
                && Top(e) in Collect().sorted && Top(e).parent.None?
    {
      var e := Collect().sorted[i];
      CollectInvariant();
      assert Sound(Collect().chosen, e);
      TopOnChain(e);
      var k := ChainCollected(i, Top(e));
      assert Sound(Collect().chosen, Top(e));
    }
  }

  datatype DependentResult = NotTransitive | Throws | DependentName(name: Name)

  function Top(e: ExtensionPackage): ExtensionPackage {
    match e.parent
    case None => e
    case Some(p) => Top(p)
  }

  lemma {:induction false} TopOnChain(e: ExtensionPackage)
    ensures Top(e) in Chain(Some(e)) && Top(e).parent.None?
  {
    if e.parent.Some? {
      TopOnChain(e.parent.value);
    }
  }

  function Dependent(e: ExtensionPackage): DependentResult {
    if !e.transitive then NotTransitive else if e.parent.None? then Throws else DependentName(Top(e).name)
  }

  /** The `dependent` getter: a loop up the parent chain. */
  method ComputeDependent(e: ExtensionPackage) returns (r: DependentResult)
    ensures r == Dependent(e)
  {
    if !e.transitive {
      return NotTransitive;
    }
    if e.parent.None? {
      return Throws;
    }
    var current := e.parent.value;
    var parent := current.parent;
    while parent.Some?
      invariant parent == current.parent && Top(current) == Top(e)
      decreases current
    {
      current := parent.value;
      parent := current.parent;
    }
    r := DependentName(current.name);
  }

  // ----- Two inputs on which the code falls short of what is documented

  lemma OneName(d: Dependency)
    ensures NamesOf([d]) == {d.name}
  {
    assert d in [d];
  }

  /** Extension packages `a` and `b` depend on each other; the root depends on `a`. */
  function CyclicEnvironment(): Environment {
    Environment((p, n) => Some(n),
                (p: Path) =>
                  NodePackage("1.0.0", Some([Dependency(if p == "a" then "b" else "a", "*")]), None, true, []),
                "package.json", NodePackage("1.0.0", Some([Dependency("a", "*")]), None, false, []), {"a", "b"})
  }

  lemma CyclicDependencies()
    ensures CyclicEnvironment().Valid()
    ensures NamesOf(CyclicEnvironment().root.AllDependencies()) == {"a"}
    ensures NamesOf(CyclicEnvironment().readPackage("a").AllDependencies()) == {"b"}
    ensures NamesOf(CyclicEnvironment().readPackage("b").AllDependencies()) == {"a"}
  {
    var env := CyclicEnvironment();
    OneName(Dependency("a", "*"));
    OneName(Dependency("b", "*"));
    assert env.root.AllDependencies() == [Dependency("a", "*")];
    assert forall p :: env.readPackage(p).AllDependencies() == [Dependency(if p == "a" then "b" else "a", "*")];
  }

  lemma CyclicCollected()
    ensures CyclicEnvironment().Valid()
    ensures var w := CyclicEnvironment().Collect();
            && Collected(w.sorted, "a") && Collected(w.sorted, "b")
            && "a" in w.chosen && w.chosen["a"] == Some("a") && "b" in w.chosen && w.chosen["b"] == Some("b")
  {
    var env := CyclicEnvironment();
    CyclicDependencies();
    env.CollectsExactlyTheReachable();
    var w := env.Collect();
    assert "a" in NamesOf(env.root.AllDependencies());
    assert w.chosen["a"] == Some("a") by { assert env.VisitedFrom(w, None, "a"); }
    assert "b" in NamesOf(env.readPackage("a").AllDependencies());
    assert w.chosen["b"] == Some("b") by { assert env.VisitedFrom(w, None, "b"); }
  }

  lemma CycleIsNotTopological()
    ensures CyclicEnvironment().Valid()
    ensures !CyclicEnvironment().Topological(CyclicEnvironment().Collect().sorted)
  {
    var env := CyclicEnvironment();
    CyclicCollected();
    CyclicDependencies();
    var w := env.Collect();
    var i :| 0 <= i < |w.sorted| && w.sorted[i].name == "a";
    var j :| 0 <= j < |w.sorted| && w.sorted[j].name == "b";
    env.CollectedIsSound(i);
    env.CollectedIsSound(j);
    assert w.sorted[i].pck.DependsOn("b") && w.sorted[j].pck.DependsOn("a");
  }

  /** The root depends on `a`, and `a` on `x`, of which another version is installed next to `a`. */
  function NestedEnvironment(): Environment {
    Environment((p, n) => Some(if p == "a" && n == "x" then "a/x" else n),
                (p: Path) =>
                  NodePackage("1.0.0", Some(if p == "a" then [Dependency("x", "*")] else []), None, true, []),
                "package.json", NodePackage("1.0.0", Some([Dependency("a", "*")]), None, false, []), {"a", "x"})
  }

  lemma NestedDependencies()
    ensures var env := NestedEnvironment();
            && env.Valid() && NamesOf(env.root.AllDependencies()) == {"a"}
            && (forall p :: NamesOf(env.readPackage(p).AllDependencies()) == if p == "a" then {"x"} else {})
            && (forall p :: env.readPackage(p).isExtension)
            && (forall p :: env.resolveModule(p, "a") == Some("a"))
            && (forall p :: env.resolveModule(p, "x") == Some(if p == "a" then "a/x" else "x"))
  {
    var env := NestedEnvironment();
    OneName(Dependency("a", "*"));
    OneName(Dependency("x", "*"));
    assert env.root.AllDependencies() == [Dependency("a", "*")];
    assert forall p | p != "a" :: env.readPackage(p).AllDependencies() == [];
    assert env.readPackage("a").AllDependencies() == [Dependency("x", "*")];
  }

  /** The package `a` is collected, so `x` is visited and collected as well. */
  lemma NestedCollected()
    ensures NestedEnvironment().Valid()
    ensures var w := NestedEnvironment().Collect(); Collected(w.sorted, "a") && Collected(w.sorted, "x")
  {
    var env := NestedEnvironment();
    NestedDependencies();
    var w := env.Collect();
    assert Collected(w.sorted, "a") by {
      env.VisitedFromDependents("a");
    }
    var i: nat :| i < |w.sorted| && w.sorted[i].name == "a";
    assert w.sorted[i].pck == env.readPackage("a") by {
      env.CollectedFromParent(i);
    }
    assert w.sorted[i].pck.DependsOn("x") && w.sorted[i] in w.sorted;
    env.VisitedFromDependents("x");
  }

  /** The nested `x` is collected, not the one that the root would get. */
  lemma NestedPackageIsCollected()
    ensures var env := NestedEnvironment();
            && env.Valid() && env.resolveModule("package.json", "x") == Some("x")
            && exists e | e in env.Collect().sorted :: e.name == "x" && e.packagePath == "a/x"
  {
    var env := NestedEnvironment();
    NestedDependencies();
    NestedCollected();
    var w := env.Collect();
    var j: nat :| j < |w.sorted| && w.sorted[j].name == "x";
    env.CollectedFromParent(j);
    env.ParentDepends(w.sorted[j]);
  }

  /** The root names the extension package `x` in `peerDependencies` only. */
  function PeerEnvironment(): Environment {
    Environment((p, n) => Some(n), p => NodePackage("1.0.0", None, None, true, []),
                "package.json", NodePackage("1.0.0", Some([]), Some([Dependency("x", "*")]), false, []), {"x"})
  }

  lemma DependentThrowsForPeerDependencyOfRoot()
    ensures PeerEnvironment().Valid()
    ensures exists e | e in PeerEnvironment().Collect().sorted :: e.name == "x" && Dependent(e) == Throws
  {
    var env := PeerEnvironment();
    OneName(Dependency("x", "*"));
    assert env.root.AllDependencies() == [Dependency("x", "*")];
    assert forall p :: env.readPackage(p).AllDependencies() == [];
    env.CollectsExactlyTheReachable();
    var w := env.Collect();
    assert env.VisitedFrom(w, None, "x") && Collected(w.sorted, "x");
    var i :| 0 <= i < |w.sorted| && w.sorted[i].name == "x";
    env.ParentDepends(w.sorted[i]);
    env.CollectedIsSound(i);
  }

  /** The class of the source: `visited`, `sorted` and `parent` change during the walk. */
  class ExtensionPackageCollector {
    const env: Environment
    var sorted: seq<ExtensionPackage>
    var visited: set<Name>
    var parent: Option<ExtensionPackage>
    ghost var chosen: map<Name, Option<Path>>

    ghost predicate Valid()
      reads this
    {
      env.Valid() && visited == chosen.Keys
    }

    ghost function State(): Walk
      reads this
    {
      Walk(chosen, sorted)
    }

    constructor (env: Environment)
      requires env.Valid()
      ensures Valid() && this.env == env && State() == Walk(map[], []) && parent.None?
    {
      this.env := env;
      sorted, visited, parent, chosen := [], {}, None, map[];
    }

    method Collect() returns (r: seq<ExtensionPackage>)
      requires Valid() && State() == Walk(map[], []) && parent.None?
      modifies this
      ensures Valid() && State() == env.Collect() && parent.None? && r == env.Collect().sorted
    {
      CollectPackages(env.rootPath, env.root.AllDependencies());
      r := sorted;
    }

    method CollectPackages(from: Path, dependencies: seq<Dependency>)
      requires Valid() && NamesOf(dependencies) <= env.universe
      modifies this
      ensures Valid() && parent == old(parent)
      ensures State() == env.CollectPackages(old(State()), from, parent, dependencies)
      decreases env.universe - visited, 2
    {
      ghost var before := State();
      for i := 0 to |dependencies|
        invariant Valid() && parent == old(parent)
        invariant before.chosen.Keys <= visited
        invariant env.CollectPackages(before, from, parent, dependencies)
               == env.CollectPackages(State(), from, parent, dependencies[i..])
      {
        assert dependencies[i..][1..] == dependencies[i + 1..];
        assert dependencies[i] in dependencies && dependencies[i].name in NamesOf(dependencies);
        assert env.universe - visited <= env.universe - before.chosen.Keys;
        CollectPackage(from, dependencies[i]);
      }
      assert dependencies[|dependencies|..] == [];
    }

    method CollectPackagesWithParent(from: Path, dependencies: seq<Dependency>, p: ExtensionPackage)
      requires Valid() && NamesOf(dependencies) <= env.universe
      modifies this
      ensures Valid() && parent == old(parent)
      ensures State() == env.CollectPackages(old(State()), from, Some(p), dependencies)
      decreases env.universe - visited, 3
    {
      var current := parent;
      parent := Some(p);
      CollectPackages(from, dependencies);
      parent := current;
    }

    method CollectPackage(from: Path, d: Dependency)
      requires Valid() && d.name in env.universe
      modifies this
      ensures Valid() && parent == old(parent)
      ensures State() == env.CollectPackage(old(State()), from, parent, d)
      decreases env.universe - visited, 1
    {
      if d.name in visited {
        return;
      }
      var packagePath := env.Resolve(from, d.name);
      visited, chosen := visited + {d.name}, chosen[d.name := packagePath];
      if packagePath.None? {
        return;
      }
      if env.IsExtension(packagePath) {
        var e := env.NewPackage(d, packagePath.value, parent);
        assert d.name in env.universe - old(visited) && d.name !in env.universe - visited;
        CollectPackagesWithParent(packagePath.value, e.pck.AllDependencies(), e);
        sorted := sorted + [e];
      }
    }
  }
}
