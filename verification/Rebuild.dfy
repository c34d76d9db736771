/**
 * The native-module backup, rebuild and revert protocol of `rebuild.ts`.
 *
 * The file system is a value of type `Disk`. Every change goes through `RebuildProcess.Step`, which
 * records the new disk in `history`: a crash can happen at exactly the recorded disks. An operation
 * that is not atomic (a copy, a write) also records a disk with arbitrary partial content. Each
 * operation may fail, each step may deliver a signal, and the tasks of a `Promise.all` interleave
 * in any order. `originals` is what was installed before; only specifications mention it.
 */
module Rebuild {
  import opened Wrappers

  type Module = string
  type Location = string
  type Content = string

  /** `<cache>/modules.json`: a write that was cut short leaves something that does not parse. */
  datatype Manifest = Absent | Unreadable | Readable(entries: map<Module, Location>)

  /** What stands for a version under `dependencies`: any JSON value. */
  datatype Version =
    | Range(text: string)
    | Number(number: real)
    | Boolean(truth: bool)
    | NullVersion
    | Composite(json: string)
  {
    /** JavaScript takes the empty string, zero, false and null for false. */
    predicate Truthy() {
      match this
      case Range(text) => text != ""
      case Number(number) => number != 0.0
      case Boolean(truth) => truth
      case NullVersion => false
      case Composite(_) => true
    }
  }

  /** The `dependencies` property. JavaScript's `typeof` is `'object'` for all but `NotObject`. */
  datatype Dependencies = NotObject | Null | List(items: seq<Version>) | Entries(versions: map<Module, Version>)

  /** A primitive is `null`, a number, a string or a boolean. */
  datatype PackageFile =
    | Unparsable(text: string)
    | JsonPrimitive(json: string)
    | JsonArray(json: string)
    | JsonObject(dependencies: Dependencies, rest: string)

  datatype Disk = Disk(
    installed: map<Location, Content>,
    cacheFolder: bool,
    backups: map<Module, Content>,
    manifest: Manifest,
    packageJson: Option<PackageFile>,
    packageCopy: Option<PackageFile>)

  datatype Signal = SIGINT | SIGTERM

  datatype Target = Electron | Browser | BrowserOnly

  /** `guarded`: the caller does not start an electron rebuild on a disk that is not `SafeToRebuild`. */
  datatype Command = Command(target: Target, modules: seq<Module>, workaround: bool, guarded: bool)

  /** A run of electron-rebuild: the disk it found, its exit code (none if it was killed), and the disk it left. */
  datatype Launch = Launch(disk: Disk, modules: seq<Module>, exitCode: Option<int>, left: Disk)

  datatype Outcome = Exit(code: int) | Threw | AlreadyRebuilt

  /**
   * Where `require.resolve` finds each module (no two in one folder: `owner` is the inverse), and the
   * content that must never be lost.
   */
  datatype World = World(
    resolve: map<Module, Location>, owner: map<Location, Module>, originals: map<Module, Content>)
  {
    ghost predicate Valid() {
      && originals.Keys == resolve.Keys
      && forall m | m in resolve :: resolve[m] in owner && owner[resolve[m]] == m
    }

    ghost predicate InPlace(d: Disk, m: Module)
      requires Valid() && m in resolve
    {
      resolve[m] in d.installed && d.installed[resolve[m]] == originals[m]
    }

    ghost predicate BackedUp(d: Disk, m: Module)
      requires Valid() && m in resolve
    {
      m in d.backups && d.backups[m] == originals[m]
    }

    ghost predicate ModuleSafe(d: Disk, m: Module)
      requires Valid() && m in resolve
    {
      match d.manifest
      case Absent => InPlace(d, m)
      case Unreadable => InPlace(d, m) || BackedUp(d, m)
      case Readable(entries) =>
        if m in entries then BackedUp(d, m) || (m !in d.backups && InPlace(d, m)) else InPlace(d, m)
    }

    /** What every crash point satisfies. */
    ghost predicate Safe(d: Disk)
      requires Valid()
    {
      && (!d.cacheFolder ==> d.backups == map[] && d.manifest.Absent?)
      && (d.manifest.Readable? ==>
            forall m | m in d.manifest.entries :: m in resolve && d.manifest.entries[m] == resolve[m])
      && forall m {:trigger ModuleSafe(d, m)} | m in resolve :: ModuleSafe(d, m)
    }

    /** What the disk holds for a module whose backup task is in phase `p`. */
    ghost predicate BackUpState(d: Disk, m: Module, p: Phase)
      requires Valid()
    {
      && m in resolve
      && (p.ToClear? || p.ToCopy? || p.Copying? || p.Done? || p.Failed?)
      && (p.ToCopy? ==> m !in d.backups) && (p.Copying? ==> p.clean)
      && (p.Done? ==> d.cacheFolder && BackedUp(d, m))
    }

    ghost predicate BackUpProgress(d: Disk, phase: map<Module, Phase>, modulesJson: map<Module, Location>,
                                   success: bool)
      requires Valid()
    {
      && (forall m | m in phase :: BackUpState(d, m, phase[m]))
      && (forall m | m in modulesJson :: m in phase && phase[m].Done? && modulesJson[m] == resolve[m])
      && (forall m | m in phase && phase[m].Done? :: m in modulesJson)
      && (success <==> forall m | m in phase :: !phase[m].Failed?)
    }

    lemma BackUpAdvances(before: Disk, after: Disk, phase: map<Module, Phase>,
                         modulesJson: map<Module, Location>, success: bool,
                         m: Module, next: Phase, modulesJson': map<Module, Location>)
      requires Valid() && BackUpProgress(before, phase, modulesJson, success)
      requires m in phase && !phase[m].Settled() && BackUpState(after, m, next)
      requires forall n, q | n != m && BackUpState(before, n, q) :: BackUpState(after, n, q)
      requires modulesJson' == if next.Done? then modulesJson[m := resolve[m]] else modulesJson
      ensures BackUpProgress(after, phase[m := next], modulesJson', success && !next.Failed?)
    {
      var moved := phase[m := next];
      assert forall n | n in moved :: BackUpState(after, n, moved[n]);
      if next.Failed? {
        assert moved[m].Failed?;
      } else if !success {
        var n :| n in phase && phase[n].Failed?;
        assert moved[n].Failed?;
      }
    }

    /** Once every task has settled, exactly the modules of those that did not fail are recorded. */
    lemma BackUpSettled(d: Disk, phase: map<Module, Phase>, modulesJson: map<Module, Location>, success: bool)
      requires Valid() && BackUpProgress(d, phase, modulesJson, success) && AllSettled(phase)
      ensures forall m | m in modulesJson :: m in phase && modulesJson[m] == resolve[m] && BackedUp(d, m)
      ensures modulesJson != map[] ==> d.cacheFolder
      ensures success <==> forall m | m in phase :: m in modulesJson
    {
      forall m | m in phase ensures phase[m].Done? || phase[m].Failed? {
        assert BackUpState(d, m, phase[m]);
      }
      if modulesJson != map[] {
        var m :| m in modulesJson;
        assert BackUpState(d, m, phase[m]);
      }
    }

    /** What the disk holds for a module whose revert task is in phase `p`, given the first backups. */
    ghost predicate RevertState(d: Disk, m: Module, p: Phase, backups: map<Module, Content>)
      requires Valid()
    {
      && m in resolve
      && (p.ToClear? || p.ToCopy? || p.Copying? || p.ToDrop? || p.Failed? ==> BackedUp(d, m))
      && (p.ToCopy? ==> resolve[m] !in d.installed) && (p.Copying? ==> p.clean)
      && (p.ToDrop? || p.Done? || p.Missing? ==> InPlace(d, m))
      && (p.ToCheck? ==> (m in d.backups <==> m in backups))
      && (!p.ToCheck? ==> (p.Missing? <==> m !in backups))
    }

    ghost predicate RevertStates(d: Disk, phase: map<Module, Phase>, backups: map<Module, Content>)
      requires Valid()
    {
      forall m | m in phase :: RevertState(d, m, phase[m], backups)
    }

    /** The disk and the variables of a revert that started on `first`, when its tasks are in `phase`. */
    ghost predicate RevertProgress(first: Disk, d: Disk, phase: map<Module, Phase>, books: RevertBooks)
      requires Valid()
    {
      && first.manifest.Readable? && d == first.(installed := d.installed, backups := d.backups)
      && RevertStates(d, phase, first.backups) && books.Match(phase, first.manifest.entries)
      && d.backups == first.backups - DoneOnes(phase)
      && SameOutside(first.installed, d.installed, Folders(first.manifest.entries, phase.Keys))
    }

    /** One step of the task of `m`. */
    ghost predicate RevertMoves(before: Disk, after: Disk, m: Module, next: Phase, backups: map<Module, Content>)
      requires Valid()
    {
      && before.manifest.Readable? && m in before.manifest.entries
      && after == before.(installed := after.installed, backups := after.backups)
      && RevertState(after, m, next, backups)
      && (forall n, q | n != m && RevertState(before, n, q, backups) :: RevertState(after, n, q, backups))
      && after.backups == (if next.Done? then before.backups - {m} else before.backups)
      && SameOutside(before.installed, after.installed, {before.manifest.entries[m]})
    }

    /** The tasks of other modules do not notice a change of one folder and one backup. */
    lemma OthersStay(before: Disk, after: Disk, m: Module, backups: map<Module, Content>)
      requires Valid() && Safe(before) && before.manifest.Readable? && m in before.manifest.entries
      requires SameOutside(before.installed, after.installed, {before.manifest.entries[m]})
      requires forall n | n != m ::
                 (n in before.backups <==> n in after.backups)
                 && (n in before.backups ==> after.backups[n] == before.backups[n])
      ensures forall n, q | n != m && RevertState(before, n, q, backups) :: RevertState(after, n, q, backups)
    {
      forall n, q | n != m && RevertState(before, n, q, backups) ensures RevertState(after, n, q, backups) {
        assert resolve[n] != before.manifest.entries[m];
      }
    }

    lemma RevertAdvances(first: Disk, before: Disk, after: Disk, phase: map<Module, Phase>, books: RevertBooks,
                         m: Module, next: Phase)
      requires Valid() && RevertProgress(first, before, phase, books)
               && RevertMoves(before, after, m, next, first.backups)
      requires m in phase && !phase[m].Settled()
      ensures RevertProgress(first, after, phase[m := next], books.After(m, next))
    {
      books.MatchAfter(phase, first.manifest.entries, m, next);
      DoneAfter(phase, m, next);
      assert phase[m := next].Keys == phase.Keys;
    }

    /**
     * What the tasks of a revert leave, with or without failures: a backup is dropped with its entry and
     * not otherwise, and the exit code tells whether all tasks did their work.
     */
    ghost predicate TasksDone(first: Disk, e: Disk, tasks: set<Module>, modulesJson: map<Module, Location>, code: int)
      requires Valid()
    {
      && first.manifest.Readable? && e == first.(installed := e.installed, backups := e.backups)
      && var entries := first.manifest.entries;
        && tasks <= entries.Keys && SameOutside(first.installed, e.installed, Folders(entries, tasks))
        && (forall m | m in modulesJson :: m in entries && modulesJson[m] == entries[m])
        && (forall m | m in entries && m !in modulesJson :: m in tasks && m in resolve && InPlace(e, m))
        && e.backups == first.backups - (entries.Keys - modulesJson.Keys)
        && (code == 0 || code == 1)
        && (code == 0 <==> modulesJson == entries - tasks && forall m | m in tasks :: m in first.backups)
    }

    /** If no task failed, only the modules that were not requested are left. */
    lemma RevertSettled(first: Disk, d: Disk, phase: map<Module, Phase>, books: RevertBooks)
      requires Valid() && RevertProgress(first, d, phase, books) && AllSettled(phase)
      ensures TasksDone(first, d, phase.Keys, books.modulesJson, books.exitCode)
      ensures books.clean ==> books.modulesJson == first.manifest.entries - phase.Keys
    {
      MissingHaveNoBackup(d, phase, first.backups);
      books.SettledBooks(phase, first.manifest.entries, first.backups);
      forall m | m in first.manifest.entries && m !in books.modulesJson ensures m in resolve && InPlace(d, m) {
        assert RevertState(d, m, phase[m], first.backups);
      }
    }

    /** The manifest written, or the cache removed, after the tasks. */
    lemma RevertIsComplete(first: Disk, d: Disk, e: Disk, modules: seq<Module>, tasks: set<Module>,
                           modulesJson: map<Module, Location>, code: int)
      requires Valid() && Safe(first) && Safe(e) && TasksDone(first, d, tasks, modulesJson, code)
      requires tasks == set m | m in first.manifest.entries && m in modules
      requires tasks == {} ==> d == first
      requires if modulesJson == map[] then Restored(e) else e == d.(manifest := Readable(modulesJson))
      ensures Reverted(first, modules, code, e)
      ensures modulesJson == first.manifest.entries - tasks ==> RevertedAll(first, modules, e)
    {
      var entries := first.manifest.entries;
      NotRequestedIsRest(entries, modules, tasks);
      if modulesJson == entries - tasks {
        forall m | m in modules && m in resolve ensures InPlace(e, m) {
          assert ModuleSafe(first, m) && ModuleSafe(e, m);
        }
      }
    }

    /** A revert of `modules` that did all of it. */
    ghost predicate RevertedAll(d: Disk, modules: seq<Module>, e: Disk)
      requires Valid()
    {
      && d.manifest.Readable?
      && var entries, left := d.manifest.entries, NotRequested(d.manifest.entries, modules);
        && (forall m | m in modules && m in resolve :: InPlace(e, m))
        && (if left == map[] then Restored(e) else e.manifest == Readable(left) && e.cacheFolder)
        && (left == entries != map[] ==> e == d)
    }

    lemma MissingHaveNoBackup(d: Disk, phase: map<Module, Phase>, backups: map<Module, Content>)
      requires Valid() && RevertStates(d, phase, backups) && AllSettled(phase)
      ensures forall m | m in phase :: phase[m].Missing? <==> m !in backups
    {
      forall m | m in phase ensures phase[m].Missing? <==> m !in backups {
        assert RevertState(d, m, phase[m], backups);
      }
    }

    /** What the code has done when `electron-rebuild` starts: an exact, listed backup of each requested module. */
    ghost predicate Listed(d: Disk, modules: seq<Module>)
      requires Valid()
    {
      && d.manifest.Readable? && d.manifest.entries.Keys == Requested(modules)
      && forall m | m in Requested(modules) :: BackedUp(d, m)
    }

    /**
     * What a caller can check: no installed module that is not requested has the name, without scope,
     * of one that is.
     */
    predicate NoNamesake(modules: seq<Module>) {
      forall m | m in resolve && RebuildName(m) in RebuildNames(modules) :: m in modules
    }

    ghost predicate Launchable(d: Disk, modules: seq<Module>)
      requires Valid()
    {
      Listed(d, modules) && NoNamesake(modules)
    }

    /** The folders that `electron-rebuild` may change: it only gets names without scope. */
    function Touchable(modules: seq<Module>): set<Location> {
      set m | m in resolve && RebuildName(m) in RebuildNames(modules) :: resolve[m]
    }

    function Touch(d: Disk, modules: seq<Module>, built: map<Location, Content>): Disk {
      var folders := Touchable(modules);
      d.(installed := (d.installed - folders) + (map l | l in built.Keys * folders :: built[l]))
    }

    /** Whatever `electron-rebuild` leaves, nothing is lost, exactly when no module has a namesake. */
    lemma SafeToTouchIffNoNamesake(d: Disk, modules: seq<Module>)
      requires Valid() && Safe(d) && Listed(d, modules)
      ensures NoNamesake(modules) <==> forall built :: Safe(Touch(d, modules, built))
    {
      if NoNamesake(modules) {
        forall built ensures Safe(Touch(d, modules, built)) {
          TouchIsSafe(d, modules, built);
        }
      } else {
        var m :| m in resolve && RebuildName(m) in RebuildNames(modules) && m !in modules;
        assert resolve[m] in Touchable(modules) && !InPlace(Touch(d, modules, map[]), m);
        assert !ModuleSafe(Touch(d, modules, map[]), m);
      }
    }

    lemma TouchIsSafe(d: Disk, modules: seq<Module>, built: map<Location, Content>)
      requires Valid() && Safe(d) && Launchable(d, modules)
      ensures Safe(Touch(d, modules, built))
    {
      var next := Touch(d, modules, built);
      forall m | m in resolve ensures ModuleSafe(next, m) {
        assert ModuleSafe(d, m);
        if m !in modules {
          assert resolve[m] !in Touchable(modules);
        }
      }
    }

    /** The installation without some modules, none of which is ever requested. */
    function Without(exposed: set<Module>): World {
      World(resolve - exposed, owner, originals - exposed)
    }

    /** Only namesakes are exposed: all that is proved holds of the other modules. */
    lemma OthersHaveNoNamesake(exposed: set<Module>, modules: seq<Module>)
      requires Valid() && forall m | m in modules :: m !in exposed
      requires forall m | m in resolve && RebuildName(m) in RebuildNames(modules) && m !in modules :: m in exposed
      ensures Without(exposed).Valid() && Without(exposed).NoNamesake(modules)
      ensures Without(exposed).Requested(modules) == Requested(modules)
    {
    }

    function Requested(modules: seq<Module>): set<Module> {
      set m | m in modules && m in resolve
    }

    /**
     * How an electron rebuild ends after the backups, when no file operation fails: with the exit code
     * of electron-rebuild, and with 1 if there is none. Code 0 leaves the folders as electron-rebuild
     * left them, and everything is restored otherwise.
     */
    ghost predicate EndsAs(d: Disk, workaround: bool, before: seq<Launch>, after: seq<Launch>, outcome: Outcome,
                           e: Disk)
      requires Valid()
    {
      var code := if |after| > |before| then ExitCodeOf(after[|before|], d, workaround) else None;
      && outcome == Exit(if code.Some? then code.value else 1)
      && if code == Some(0) then e.installed == after[|before|].left.installed else Restored(e)
    }

    /** What a browser rebuild of `modules` leaves of the disk `d` when it returns an exit code. */
    ghost predicate Reverted(d: Disk, modules: seq<Module>, code: int, e: Disk)
      requires Valid()
    {
      && d.manifest.Readable?
      && var entries, kept := d.manifest.entries, if e.manifest.Readable? then e.manifest.entries else map[];
        && (e.cacheFolder <==> kept != map[])
        && (forall m | m in kept :: m in entries && kept[m] == entries[m])
        && (forall m | m in entries && m !in kept :: m in modules && (m in resolve ==> InPlace(e, m)))
        && (e.cacheFolder ==> e.backups == d.backups - (entries.Keys - kept.Keys))
        && (code == 0 || code == 1)
        && (code == 0 <==>
              kept == NotRequested(entries, modules) && forall m | m in entries && m in modules :: m in d.backups)
    }

    /** Nothing has changed outside the folders that electron-rebuild may touch for `modules`. */
    ghost predicate SameElsewhere(d: Disk, e: Disk, modules: seq<Module>) {
      SameOutside(d.installed, e.installed, Touchable(modules))
    }

    function Folders(entries: map<Module, Location>, tasks: set<Module>): set<Location>
      requires tasks <= entries.Keys
    {
      set m | m in tasks :: entries[m]
    }

    lemma TasksStayInFolders(first: Disk, d: Disk, tasks: set<Module>, modules: seq<Module>,
                             modulesJson: map<Module, Location>, code: int)
      requires Valid() && Safe(first) && TasksDone(first, d, tasks, modulesJson, code)
      requires forall m | m in tasks :: m in modules
      ensures SameElsewhere(first, d, modules)
    {
      var entries := first.manifest.entries;
      forall l | l in Folders(entries, tasks) ensures l in Touchable(modules) {
        var m :| m in tasks && entries[m] == l;
        var i :| 0 <= i < |modules| && modules[i] == m;
        assert RebuildNames(modules)[i] == RebuildName(m);
      }
    }

    /** Everything back where it was, and no cache left. */
    ghost predicate Restored(d: Disk)
      requires Valid()
    {
      !d.cacheFolder && forall m | m in resolve :: InPlace(d, m)
    }
  }

  function IndexOf(s: string, c: char): (i: nat)
    ensures i <= |s| && c !in s[..i]
    ensures i < |s| ==> s[i] == c
  {
    if s == "" || s[0] == c then 0 else 1 + IndexOf(s[1..], c)
  }

  /** electron-rebuild ignores the module namespace. */
  function RebuildName(m: Module): string {
    var slash := IndexOf(m, '/');
    if m != "" && m[0] == '@' && slash < |m| then m[slash + 1..] else m
  }

  function RebuildNames(modules: seq<Module>): seq<Module> {
    seq(|modules|, i requires 0 <= i < |modules| => RebuildName(modules[i]))
  }

  /** A scope in front of a module name is dropped, up to its first slash; a name without a scope is kept. */
  lemma RebuildNameDropsScope(scope: string, name: string)
    requires '/' !in scope
    ensures RebuildName("@" + scope + "/" + name) == name
    ensures name == "" || name[0] != '@' || '/' !in name ==> RebuildName(name) == name
  {
    var head := "@" + scope;
    var m := head + "/" + name;
    IndexOfFirst(head, "/" + name, '/');
    assert m == head + ("/" + name) && m[|head| + 1..] == name;
    if '/' !in name {
      IndexOfFirst(name, "", '/');
      assert name + "" == name;
    }
  }

  lemma {:induction false} IndexOfFirst(a: string, b: string, c: char)
    requires c !in a && (b == "" || b[0] == c)
    ensures IndexOf(a + b, c) == |a|
  {
    if a == "" {
      assert a + b == b;
    } else {
      assert (a + b)[1..] == a[1..] + b;
      IndexOfFirst(a[1..], b, c);
    }
  }

  /** Modules `m` and `namesake` are installed, and `m` is backed up. */
  function TwoModules(m: Module, namesake: Module): World {
    World(map[m := "a", namesake := "b"], map["a" := m, "b" := namesake], map[m := "1", namesake := "2"])
  }

  function OneBackedUp(m: Module): Disk {
    Disk(map["a" := "1", "b" := "2"], true, map[m := "1"], Readable(map[m := "a"]), None, None)
  }

  /** With `@scope/name` requested and backed up, electron-rebuild may rebuild `name`, of which there is no backup. */
  lemma NamesakeIsLost(scope: string, name: Module, built: Content)
    requires '/' !in scope && '/' !in name && built != "2"
    ensures var m := "@" + scope + "/" + name; var world := TwoModules(m, name);
            var after := world.Touch(OneBackedUp(m), [m], map["b" := built]);
            && world.Valid() && world.Safe(OneBackedUp(m)) && world.Listed(OneBackedUp(m), [m])
            && !world.InPlace(after, name) && !world.BackedUp(after, name)
  {
    var m := "@" + scope + "/" + name;
    RebuildNameDropsScope(scope, name);
    assert |m| > |name|;
    TwoModulesSafe(m, name);
    assert RebuildNames([m])[0] == name && RebuildName(name) == name;
    assert "b" in TwoModules(m, name).Touchable([m]);
  }

  lemma TwoModulesSafe(m: Module, name: Module)
    requires m != name
    ensures var world, d := TwoModules(m, name), OneBackedUp(m);
            world.Valid() && world.Safe(d) && world.Listed(d, [m])
  {
    var world, d := TwoModules(m, name), OneBackedUp(m);
    assert world.ModuleSafe(d, m) && world.ModuleSafe(d, name);
  }

  /** The `dependencies` that the temporary package.json holds. */
  function TemporaryVersions(versions: map<Module, Version>, extra: seq<Module>): map<Module, Version> {
    if extra == [] then versions
    else
      var rest := TemporaryVersions(versions, extra[..|extra| - 1]);
      var name := extra[|extra| - 1];
      if name in rest && rest[name].Truthy() then rest else rest[name := Range("*")]
  }

  /**
   * The temporary version adds exactly the missing names. An existing entry is kept unless it is an
   * entry of a listed module that `!dependencies[name]` takes for a missing one.
   */
  lemma {:induction false} TemporaryVersionsOverwriteExactlyFalsyEntries(
    versions: map<Module, Version>, extra: seq<Module>)
    ensures var t := TemporaryVersions(versions, extra);
            && t.Keys == versions.Keys + (set m | m in extra)
            && (forall m | m in versions :: t[m] == versions[m] <==> !(m in extra && !versions[m].Truthy()))
            && (forall m | m in extra && (m !in versions || !versions[m].Truthy()) :: t[m] == Range("*"))
  {
    if extra != [] {
      var init := extra[..|extra| - 1];
      TemporaryVersionsOverwriteExactlyFalsyEntries(versions, init);
      assert extra == init + [extra[|extra| - 1]];
    }
  }

  /**
   * The package.json that electron-rebuild gets to see, given the one on disk. Named entries of an
   * array are lost when it is written.
   */
  function TemporaryPackage(entry: Option<PackageFile>, extra: seq<Module>): PackageFile {
    match entry
    case Some(JsonObject(NotObject, rest)) => JsonObject(Entries(TemporaryVersions(map[], extra)), rest)
    case Some(JsonObject(Entries(versions), rest)) => JsonObject(Entries(TemporaryVersions(versions, extra)), rest)
    case Some(file) => file
    case None => JsonObject(Entries(TemporaryVersions(map[], extra)), "theia-rebuild-workaround")
  }

  /**
   * What the temporary package.json has for each module, and that nothing else of the file changes. A
   * file without an object of dependencies gets one with the listed modules only.
   */
  lemma TemporaryPackageKeepsTheRest(entry: Option<PackageFile>, extra: seq<Module>)
    requires entry.None? || entry.value.JsonObject?
    ensures var t, d := TemporaryPackage(entry, extra), if entry.Some? then entry.value.dependencies else NotObject;
            && t.JsonObject? && t.rest == (if entry.Some? then entry.value.rest else "theia-rebuild-workaround")
            && (d.Null? || d.List? ==> t.dependencies == d)
            && (d.NotObject? || d.Entries? ==>
                  && t.dependencies.Entries?
                  && forall m ::
                       var found := d.Entries? && m in d.versions;
                       var false_ := found && d.versions[m] in {Range(""), Number(0.0), Boolean(false), NullVersion};
                       && (m in t.dependencies.versions <==> found || m in extra)
                       && (found && !(m in extra && false_) ==> t.dependencies.versions[m] == d.versions[m])
                       && (m in extra && (!found || false_) ==> t.dependencies.versions[m] == Range("*")))
  {
    var named := entry.Some? && entry.value.dependencies.Entries?;
    TemporaryVersionsOverwriteExactlyFalsyEntries(if named then entry.value.dependencies.versions else map[], extra);
  }

  /** electron-rebuild sees `m` as a dependency, which is what the workaround is for. */
  predicate Depends(file: PackageFile, m: Module) {
    && file.JsonObject? && file.dependencies.Entries?
    && m in file.dependencies.versions && file.dependencies.versions[m].Truthy()
  }

  /**
   * When there is a temporary version, it lists the modules exactly if neither package.json nor its
   * `dependencies` is an array.
   */
  lemma TemporaryPackageListsModulesUnlessArray(entry: Option<PackageFile>, extra: seq<Module>)
    requires (entry.None? || IsParsable(entry)) && !LeavesCopy(entry, extra) && extra != []
    ensures (forall m | m in extra :: Depends(TemporaryPackage(entry, extra), m)) <==> !HasArray(entry)
  {
    var named := entry.Some? && entry.value.JsonObject? && entry.value.dependencies.Entries?;
    TemporaryVersionsOverwriteExactlyFalsyEntries(if named then entry.value.dependencies.versions else map[], extra);
    assert extra[0] in extra;
  }

  predicate HasArray(entry: Option<PackageFile>) {
    entry.Some? && (entry.value.JsonArray? || (entry.value.JsonObject? && entry.value.dependencies.List?))
  }

  /**
   * Entries that are overwritten, an array `dependencies` that does not get the module, and a
   * package.json that leaves the copy behind even if no module is listed.
   */
  lemma TemporaryPackageInputs(m: Module, n: Module, rest: string)
    requires m != n
    ensures TemporaryVersions(map[m := Range(""), n := Range("1")], [m, n]) == map[m := Range("*"), n := Range("1")]
    ensures TemporaryVersions(map[m := NullVersion, n := Number(0.0)], [m, n]) == map[m := Range("*"), n := Range("*")]
    ensures !Depends(TemporaryPackage(Some(JsonObject(List([]), rest)), [m]), m)
    ensures LeavesCopy(Some(JsonPrimitive("null")), []) && !LeavesCopy(Some(JsonObject(Null, rest)), [])
  {
    var a, b := map[m := Range(""), n := Range("1")], map[m := NullVersion, n := Number(0.0)];
    TemporaryVersionsOverwriteExactlyFalsyEntries(a, [m, n]);
    TemporaryVersionsOverwriteExactlyFalsyEntries(b, [m, n]);
    assert a.Keys == {m, n} && b.Keys == {m, n};
  }

  predicate IsParsable(packageJson: Option<PackageFile>) {
    packageJson.Some? && !packageJson.value.Unparsable?
  }

  /**
   * When the code between the copy and the `try` throws: on a primitive, which has no property that
   * can be assigned, and on reading a property of `dependencies` that are null.
   */
  predicate LeavesCopy(packageJson: Option<PackageFile>, extra: seq<Module>) {
    && packageJson.Some?
    && (|| packageJson.value.JsonPrimitive?
        || (packageJson.value.JsonObject? && packageJson.value.dependencies.Null? && extra != []))
  }

  // ----- Where the content of package.json is

  ghost predicate Holds(d: Disk, content: PackageFile) {
    d.packageJson == Some(content) || d.packageCopy == Some(content)
  }

  ghost predicate KeptSince(start: nat, disks: seq<Disk>, content: PackageFile) {
    forall i | start <= i < |disks| :: Holds(disks[i], content)
  }

  /** The workaround does not overwrite `content`: it is in package.json, or package.json will not be copied. */
  ghost predicate Secure(d: Disk, content: PackageFile) {
    d.packageJson == Some(content) || (d.packageCopy == Some(content) && !IsParsable(d.packageJson))
  }

  /** What a caller can check before an electron rebuild: no leftover copy would be overwritten. */
  predicate SafeToRebuild(d: Disk) {
    d.packageCopy.None? || d.packageCopy == d.packageJson || !IsParsable(d.packageJson)
  }

  /** What was secure on `d` is on every disk from `start` on, and on `e`. */
  ghost predicate Keeps(d: Disk, start: nat, disks: seq<Disk>, e: Disk) {
    forall content | Secure(d, content) :: Holds(e, content) && KeptSince(start, disks, content)
  }

  /** What `d` holds is on every disk from `start` on, and on `e`. */
  ghost predicate KeepsAll(d: Disk, start: nat, disks: seq<Disk>, e: Disk) {
    forall content | Holds(d, content) :: Holds(e, content) && KeptSince(start, disks, content)
  }

  lemma SafeToRebuildIffAllSecure(d: Disk)
    ensures SafeToRebuild(d) <==> forall content | Holds(d, content) :: Secure(d, content)
  {
    if !SafeToRebuild(d) {
      assert Holds(d, d.packageCopy.value) && !Secure(d, d.packageCopy.value);
    }
  }

  ghost predicate SameFiles(d: Disk, e: Disk) {
    d.packageJson == e.packageJson && d.packageCopy == e.packageCopy
  }

  /** `after` is `before` and more disks, which have package.json and its copy as `d` has them. */
  ghost predicate Appended(before: seq<Disk>, after: seq<Disk>, d: Disk) {
    before <= after && forall i {:trigger SameFiles(after[i], d)} | |before| <= i < |after| :: SameFiles(after[i], d)
  }

  /** electron-rebuild was not started again, or once, with this package.json and this copy. */
  ghost predicate Launched(before: seq<Launch>, after: seq<Launch>, modules: seq<Module>, packageJson: PackageFile,
                           packageCopy: Option<PackageFile>) {
    after == before
    || (|after| == |before| + 1 && before <= after && after[|before|].modules == modules
        && after[|before|].disk.packageJson == Some(packageJson) && after[|before|].disk.packageCopy == packageCopy)
  }

  /**
   * The exit code that a run of electron-rebuild counts for when no file operation fails: its own, or
   * none when it was killed or has removed the package.json that the workaround had created.
   */
  function ExitCodeOf(launch: Launch, d: Disk, workaround: bool): Option<int> {
    if workaround && d.packageJson.None? && launch.left.packageJson.None? then None else launch.exitCode
  }

  /** Whether the workaround gets as far as electron-rebuild when nothing fails and no signal arrives. */
  predicate Runnable(packageJson: Option<PackageFile>, extra: seq<Module>) {
    (packageJson.None? || IsParsable(packageJson)) && !LeavesCopy(packageJson, extra)
  }

  predicate MayRun(d: Disk, workaround: bool, modules: seq<Module>) {
    workaround ==> Runnable(d.packageJson, RebuildNames(modules))
  }

  /** electron-rebuild has run once, with exit code 0, and the folders are as it left them. */
  ghost predicate BuiltBy(before: seq<Launch>, after: seq<Launch>, e: Disk) {
    && |after| == |before| + 1 && before <= after
    && after[|before|].exitCode == Some(0) && e.installed == after[|before|].left.installed
  }

  /** electron-rebuild did not run, or ran once: the folders are as it left them, and an `exitCode` is its own. */
  ghost predicate Ran(before: seq<Launch>, after: seq<Launch>, d: Disk, e: Disk, exitCode: Option<int>) {
    if after == before then exitCode.None? && e.installed == d.installed
    else
      && |after| == |before| + 1 && before <= after
      && e.installed == after[|before|].left.installed && (exitCode.None? || exitCode == after[|before|].exitCode)
  }

  /** electron-rebuild was not started again, or once, with the temporary version of the package.json on `d`. */
  ghost predicate LaunchedOn(d: Disk, modules: seq<Module>, before: seq<Launch>, after: seq<Launch>) {
    Launched(before, after, modules, TemporaryPackage(d.packageJson, RebuildNames(modules)), CopyAtLaunch(d))
  }

  /** Without the workaround electron-rebuild starts with the files as they are, and its copy is not touched. */
  ghost predicate LaunchedAsItIs(d: Disk, before: seq<Launch>, after: seq<Launch>, e: Disk) {
    if after == before then SameFiles(e, d)
    else
      && |after| == |before| + 1 && before <= after && SameFiles(after[|before|].disk, d)
      && SameFiles(e, after[|before|].left) && e.packageCopy == d.packageCopy
  }

  /** The workaround copies a package.json that exists. */
  function CopyAtLaunch(d: Disk): Option<PackageFile> {
    if d.packageJson.Some? then d.packageJson else d.packageCopy
  }

  lemma AppendedTwice(a: seq<Disk>, b: seq<Disk>, c: seq<Disk>, d: Disk, e: Disk)
    requires Appended(a, b, d) && Appended(b, c, e) && SameFiles(d, e)
    ensures Appended(a, c, d)
  {
    forall i | |a| <= i < |c| ensures SameFiles(c[i], d) {
      if i < |b| {
        assert c[i] == b[i] && SameFiles(b[i], d);
      } else {
        assert SameFiles(c[i], e);
      }
    }
  }

  lemma KeptAfter(a: seq<Disk>, b: seq<Disk>, c: seq<Disk>, d: Disk, content: PackageFile)
    requires Appended(a, b, d) && Holds(d, content) && b <= c && KeptSince(|b|, c, content)
    ensures KeptSince(|a|, c, content)
  {
    forall i | |a| <= i < |c| ensures Holds(c[i], content) {
      if i < |b| {
        assert c[i] == b[i] && SameFiles(b[i], d);
      }
    }
  }

  lemma KeptBefore(start: nat, b: seq<Disk>, c: seq<Disk>, d: Disk, content: PackageFile)
    requires KeptSince(start, b, content) && Appended(b, c, d) && Holds(d, content)
    ensures KeptSince(start, c, content)
  {
    forall i | start <= i < |c| ensures Holds(c[i], content) {
      if i < |b| {
        assert c[i] == b[i];
      } else {
        assert SameFiles(c[i], d);
      }
    }
  }

  /** The entries of the manifest that a revert of `modules` skips. */
  function NotRequested(entries: map<Module, Location>, modules: seq<Module>): map<Module, Location> {
    map m | m in entries && m !in modules :: entries[m]
  }

  lemma NotRequestedIsRest(entries: map<Module, Location>, modules: seq<Module>, tasks: set<Module>)
    requires tasks == set m | m in entries && m in modules
    ensures entries - tasks == NotRequested(entries, modules)
    ensures NotRequested(entries, modules) == entries ==> tasks == {}
  {
    assert entries - tasks == NotRequested(entries, modules);
  }

  /**
   * How far the task of one module got: a backup task starts at `ToClear`, a revert task at `ToCheck`. A copy
   * is `clean` if there was nothing at its destination when it started.
   */
  datatype Phase = ToCheck | ToClear | ToCopy | Copying(clean: bool) | ToDrop | Missing | Done | Failed {
    predicate Settled() {
      Missing? || Done? || Failed?
    }

    /** How many steps the task may still take. */
    function StepsLeft(): nat {
      match this
      case ToCheck => 5
      case ToClear => 4
      case ToCopy => 3
      case Copying(_) => 2
      case ToDrop => 1
      case _ => 0
    }
  }

  ghost predicate SameOutside(a: map<Location, Content>, b: map<Location, Content>, folders: set<Location>) {
    forall l | l !in folders :: (l in a <==> l in b) && (l in a ==> a[l] == b[l])
  }

  function DoneOnes(phase: map<Module, Phase>): set<Module> {
    set m | m in phase && phase[m].Done?
  }

  lemma DoneAfter(phase: map<Module, Phase>, m: Module, next: Phase)
    requires m in phase && !phase[m].Settled()
    ensures DoneOnes(phase[m := next]) == if next.Done? then DoneOnes(phase) + {m} else DoneOnes(phase)
  {
  }

  /** The variables that the revert tasks share; `clean` tells that no task failed. */
  datatype RevertBooks = RevertBooks(modulesJson: map<Module, Location>, exitCode: int, clean: bool) {
    ghost predicate Match(phase: map<Module, Phase>, entries: map<Module, Location>) {
      && (forall m | m in phase :: m in entries)
      && (forall m | m in modulesJson :: m in entries && modulesJson[m] == entries[m])
      && (forall m | m in phase && m in modulesJson :: !phase[m].Missing? && !phase[m].Done?)
      && (forall m | m in entries && m !in modulesJson :: m in phase && (phase[m].Missing? || phase[m].Done?))
      && (clean <==> forall m | m in phase :: !phase[m].Failed?)
      && exitCode in {0, 1} && (exitCode == 0 <==> clean && forall m | m in phase :: !phase[m].Missing?)
    }

    function After(m: Module, next: Phase): RevertBooks {
      RevertBooks(
        if next.Missing? || next.Done? then modulesJson - {m} else modulesJson,
        if next.Missing? || next.Failed? then 1 else exitCode,
        clean && !next.Failed?)
    }

    lemma SettledBooks(phase: map<Module, Phase>, entries: map<Module, Location>, backups: map<Module, Content>)
      requires Match(phase, entries) && AllSettled(phase)
      requires forall m | m in phase :: phase[m].Missing? <==> m !in backups
      ensures backups - DoneOnes(phase) == backups - (entries.Keys - modulesJson.Keys)
      ensures exitCode == 0 <==> modulesJson == entries - phase.Keys && forall m | m in phase :: m in backups
      ensures clean ==> modulesJson == entries - phase.Keys
    {
      if !clean {
        var m :| m in phase && phase[m].Failed?;
        assert m in modulesJson;
      }
    }

    lemma MatchAfter(phase: map<Module, Phase>, entries: map<Module, Location>, m: Module, next: Phase)
      requires Match(phase, entries) && m in phase && !phase[m].Settled()
      ensures After(m, next).Match(phase[m := next], entries)
    {
      var moved, after := phase[m := next], After(m, next);
      assert moved[m] == next && forall n | n in phase && n != m :: moved[n] == phase[n];
      if after.clean && after.exitCode != 0 && !next.Missing? {
        var n :| n in phase && phase[n].Missing?;
        assert moved[n].Missing?;
      }
      if !after.clean && !next.Failed? {
        var n :| n in phase && phase[n].Failed?;
        assert moved[n].Failed?;
      }
    }
  }

  predicate AllSettled(phase: map<Module, Phase>) {
    forall m | m in phase :: phase[m].Settled()
  }

  /** The steps left in the tasks of `names` together. */
  ghost function Work(phase: map<Module, Phase>, names: set<Module>): nat
    requires names <= phase.Keys
  {
    if names == {} then 0
    else
      var m :| m in names;
      phase[m].StepsLeft() + Work(phase, names - {m})
  }

  lemma {:induction false} WorkSplit(phase: map<Module, Phase>, names: set<Module>, m: Module)
    requires m in names && names <= phase.Keys
    ensures Work(phase, names) == phase[m].StepsLeft() + Work(phase, names - {m})
    decreases names
  {
    var n :| n in names && Work(phase, names) == phase[n].StepsLeft() + Work(phase, names - {n});
    if n != m {
      WorkSplit(phase, names - {n}, m);
      WorkSplit(phase, names - {m}, n);
      assert names - {n} - {m} == names - {m} - {n};
    }
  }

  lemma {:induction false} WorkSame(phase: map<Module, Phase>, other: map<Module, Phase>, names: set<Module>)
    requires names <= phase.Keys * other.Keys && forall m | m in names :: phase[m] == other[m]
    ensures Work(phase, names) == Work(other, names)
  {
    if names != {} {
      var m :| m in names;
      WorkSplit(phase, names, m);
      WorkSplit(other, names, m);
      WorkSame(phase, other, names - {m});
    }
  }

  lemma WorkDecreases(phase: map<Module, Phase>, m: Module, next: Phase)
    requires m in phase && next.StepsLeft() < phase[m].StepsLeft()
    ensures var moved := phase[m := next]; moved.Keys == phase.Keys && Work(moved, moved.Keys) < Work(phase, phase.Keys)
  {
    var moved := phase[m := next];
    assert moved.Keys == phase.Keys;
    WorkSplit(phase, phase.Keys, m);
    WorkSplit(moved, phase.Keys, m);
    WorkSame(phase, moved, phase.Keys - {m});
  }

  class RebuildProcess {
    const world: World
    var disk: Disk
    var lastSignal: Option<Signal>
    ghost var ioFailed: bool
    var history: seq<Disk>
    var launches: seq<Launch>

    ghost predicate Valid()
      reads this
    {
      && world.Valid() && world.Safe(disk) && disk in history && (forall d | d in history :: world.Safe(d))
      && forall l | l in launches :: l.disk in history && world.Launchable(l.disk, l.modules)
    }

    constructor (world: World, disk: Disk)
      requires world.Valid() && world.Safe(disk)
      ensures Valid() && this.world == world && this.disk == disk && history == [disk] && launches == []
      ensures lastSignal.None? && !ioFailed
    {
      this.world, this.disk := world, disk;
      lastSignal, ioFailed, history, launches := None, false, [disk], [];
    }

    /** The disk changes; a pending signal may be delivered. */
    method Step(next: Disk)
      requires Valid() && world.Safe(next)
      modifies this`disk, this`history, this`lastSignal, this`ioFailed
      ensures Valid() && disk == next && history == old(history) + [next] && ioFailed == old(ioFailed)
      ensures old(lastSignal).Some? ==> lastSignal.Some?
    {
      disk, history := next, history + [next];
      var signal: Option<Signal> := *;
      if signal.Some? {
        lastSignal := signal;
      }
    }

    /** A step of the package.json workaround: only package.json and its copy change. */
    method PackageStep(packageJson: Option<PackageFile>, packageCopy: Option<PackageFile>)
      requires Valid()
      modifies this`disk, this`history, this`lastSignal, this`ioFailed
      ensures Valid() && disk == old(disk).(packageJson := packageJson, packageCopy := packageCopy)
      ensures history == old(history) + [disk] && ioFailed == old(ioFailed)
      ensures old(lastSignal).Some? ==> lastSignal.Some?
    {
      ghost var next := disk.(packageJson := packageJson, packageCopy := packageCopy);
      forall m | m in world.resolve ensures world.ModuleSafe(next, m) {
        assert world.ModuleSafe(disk, m);
      }
      Step(disk.(packageJson := packageJson, packageCopy := packageCopy));
    }

    /** Whether the next file-system operation succeeds. */
    method Attempt() returns (ok: bool)
      modifies this`ioFailed
      ensures ioFailed == (old(ioFailed) || !ok)
    {
      ok := *;
      ioFailed := ioFailed || !ok;
    }

    /** What a finished copy of a folder leaves: only where there was nothing before it is exact. */
    method Copied(clean: bool, source: Content) returns (content: Content)
      ensures clean ==> content == source
    {
      content := *;
      if clean {
        content := source;
      }
    }

    method WriteManifest(entries: map<Module, Location>) returns (ok: bool)
      requires Valid() && disk.cacheFolder
      requires world.Safe(disk.(manifest := Unreadable)) && world.Safe(disk.(manifest := Readable(entries)))
      modifies this`disk, this`history, this`lastSignal, this`ioFailed
      ensures Valid() && Appended(old(history), history, old(disk))
      ensures disk == old(disk).(manifest := if ok then Readable(entries) else Unreadable)
      ensures ioFailed == (old(ioFailed) || !ok)
      ensures old(lastSignal).Some? ==> lastSignal.Some?
      ensures StuckSince(|old(history)|, history)
    {
      ok := Attempt();
      Step(disk.(manifest := Unreadable));
      if ok {
        Step(disk.(manifest := Readable(entries)));
      }
      assert Stuck(history[|old(history)|]);
    }

    /** The concurrent backup tasks of `rebuildElectronModules`, one per resolved module. */
    method BackUp(tasks: set<Module>) returns (modulesJson: map<Module, Location>, success: bool)
      requires Valid() && tasks <= world.resolve.Keys && disk.manifest.Absent?
      modifies this`disk, this`history, this`lastSignal, this`ioFailed
      ensures Valid() && Appended(old(history), history, old(disk))
      ensures disk == old(disk).(cacheFolder := disk.cacheFolder, backups := disk.backups)
      ensures forall m | m in modulesJson :: m in tasks && modulesJson[m] == world.resolve[m] && world.BackedUp(disk, m)
      ensures modulesJson != map[] ==> disk.cacheFolder
      ensures success <==> forall m | m in tasks :: m in modulesJson
      ensures tasks == {} ==> disk == old(disk)
      ensures !ioFailed ==> success && !old(ioFailed)
    {
      var phase := map m | m in tasks :: ToClear;
      modulesJson, success := map[], true;
      while !AllSettled(phase)
        invariant Valid() && Appended(old(history), history, old(disk)) && phase.Keys == tasks
        invariant disk == old(disk).(cacheFolder := disk.cacheFolder, backups := disk.backups)
        invariant world.BackUpProgress(disk, phase, modulesJson, success)
        invariant tasks != {} || disk == old(disk)
        invariant !ioFailed ==> success && !old(ioFailed)
        decreases Work(phase, phase.Keys)
      {
        var m :| m in phase && !phase[m].Settled();
        ghost var before, was := disk, history;
        var next := BackUpStep(m, phase[m]);
        AppendedTwice(old(history), was, history, old(disk), before);
        var modulesJson' := if next.Done? then modulesJson[m := world.resolve[m]] else modulesJson;
        world.BackUpAdvances(before, disk, phase, modulesJson, success, m, next, modulesJson');
        WorkDecreases(phase, m, next);
        phase, modulesJson, success := phase[m := next], modulesJson', success && !next.Failed?;
      }
      world.BackUpSettled(disk, phase, modulesJson, success);
    }

    /** One step of the backup task of `m`; tasks of other modules keep their state. */
    method BackUpStep(m: Module, p: Phase) returns (next: Phase)
      requires Valid() && disk.manifest.Absent? && !p.Settled() && world.BackUpState(disk, m, p)
      modifies this`disk, this`history, this`lastSignal, this`ioFailed
      ensures Valid() && Appended(old(history), history, old(disk))
      ensures disk == old(disk).(cacheFolder := disk.cacheFolder, backups := disk.backups)
      ensures world.BackUpState(disk, m, next) && next.StepsLeft() < p.StepsLeft()
      ensures forall n, q | n != m && world.BackUpState(old(disk), n, q) :: world.BackUpState(disk, n, q)
      ensures !ioFailed ==> !next.Failed? && !old(ioFailed)
    {
      match p {
        case ToClear => // fs.remove(dest)
          var ok := Attempt();
          if ok {
            StoreOne(m, None, false);
          }
          return if ok then ToCopy else Failed;
        case ToCopy => // fs.copy(src, dest) starts; it may create the cache folder
          var partial: Option<Content> := *;
          var folder: bool := *;
          next := Copying(m !in disk.backups);
          StoreOne(m, partial, folder);
        case Copying(clean) => // fs.copy(src, dest) settles
          var ok := Attempt();
          if ok {
            assert world.ModuleSafe(disk, m);
            var content := Copied(clean, disk.installed[world.resolve[m]]);
            StoreOne(m, Some(content), true);
          }
          return if ok then Done else Failed;
      }
    }

    /** Put `content` (or nothing) at `<cache>/<m>` while there is no manifest, creating `<cache>` if `folder`. */
    method StoreOne(m: Module, content: Option<Content>, folder: bool)
      requires Valid() && disk.manifest.Absent? && m in world.resolve
      modifies this`disk, this`history, this`lastSignal, this`ioFailed
      ensures Valid() && Appended(old(history), history, old(disk)) && ioFailed == old(ioFailed)
      ensures disk == old(disk).(cacheFolder := disk.cacheFolder, backups := disk.backups)
      ensures disk.cacheFolder == (old(disk.cacheFolder) || folder || content.Some?)
      ensures content.None? ==> m !in disk.backups
      ensures forall n | n != m :: (n in disk.backups <==> n in old(disk.backups))
                                   && (n in disk.backups ==> disk.backups[n] == old(disk.backups[n]))
      ensures content == Some(world.originals[m]) ==> world.BackedUp(disk, m)
    {
      assert forall n | n in world.resolve :: world.ModuleSafe(disk, n);
      match content
      case None => Step(disk.(cacheFolder := disk.cacheFolder || folder, backups := disk.backups - {m}));
      case Some(c) => Step(disk.(cacheFolder := true, backups := disk.backups[m := c]));
    }

    /**
     * `electron-rebuild` runs: it may leave anything in the folders of all modules that have the name,
     * without scope, of a requested one, and in package.json, and exits with a code or is killed
     * (`None`). The precondition is the promise
     * that it never starts before every module it can touch has an exact backup.
     */
    method RunElectronRebuild(modules: seq<Module>) returns (exitCode: Option<int>)
      requires Valid() && world.Launchable(disk, modules)
      modifies this
      ensures Valid() && history == old(history) + [disk] && ioFailed == old(ioFailed)
      ensures world.SameElsewhere(old(disk), disk, modules)
      ensures launches == old(launches) + [Launch(old(disk), modules, exitCode, disk)]
      ensures disk == old(disk).(installed := disk.installed, packageJson := disk.packageJson)
      ensures old(lastSignal).Some? ==> lastSignal.Some?
    {
      var found := disk;
      var built: map<Location, Content> := *;
      var json: Option<PackageFile> := *;
      exitCode := *;
      ghost var next := world.Touch(disk, modules, built).(packageJson := json);
      world.TouchIsSafe(disk, modules, built);
      forall m | m in world.resolve ensures world.ModuleSafe(next, m) {
        assert world.ModuleSafe(world.Touch(disk, modules, built), m);
      }
      var left := world.Touch(disk, modules, built).(packageJson := json);
      launches := launches + [Launch(found, modules, exitCode, left)];
      Step(left);
    }

    /**
     * `electronRebuildExtraModulesWorkaround`. `None` is an exception. `interrupted` tells that the
     * first signal check fired.
     */
    method RunWithExtraModules(modules: seq<Module>, extra: seq<Module>)
      returns (exitCode: Option<int>, ghost interrupted: bool)
      requires Valid() && world.Launchable(disk, modules)
      modifies this
      ensures Valid() && old(history) <= history
      ensures disk == old(disk).(
                        installed := disk.installed, packageJson := disk.packageJson, packageCopy := disk.packageCopy)
      ensures !ioFailed ==> !old(ioFailed)
      // On exit package.json is what it was, or absent if it was absent.
      ensures !ioFailed ==> disk.packageJson == old(disk.packageJson)
      ensures exitCode.Some? ==>
                && disk.packageJson == old(disk.packageJson)
                && disk.packageCopy == if old(disk.packageJson).Some? then None else old(disk.packageCopy)
      // The copy is left behind exactly when the code before the `try` throws.
      ensures !ioFailed && IsParsable(old(disk.packageJson)) ==>
                disk.packageCopy
                == if LeavesCopy(old(disk.packageJson), extra) && !interrupted then old(disk.packageJson) else None
      ensures !IsParsable(old(disk.packageJson)) ==> disk.packageCopy == old(disk.packageCopy)
      // At every crash point, failures included, what it does not overwrite is in one of the two files.
      ensures Keeps(old(disk), |old(history)|, history, disk)
      // electron-rebuild starts with the temporary version, and only with it.
      ensures Launched(old(launches), launches, modules, TemporaryPackage(old(disk.packageJson), extra),
              CopyAtLaunch(old(disk)))
      ensures !ioFailed && lastSignal.None? && Runnable(old(disk.packageJson), extra) ==> launches != old(launches)
      ensures world.SameElsewhere(old(disk), disk, modules)
      ensures Ran(old(launches), launches, old(disk), disk, exitCode)
      ensures !ioFailed && launches != old(launches) ==>
                exitCode == ExitCodeOf(launches[|old(launches)|], old(disk), true)
      ensures interrupted ==> exitCode.None? && lastSignal.Some?
    {
      exitCode, interrupted := None, false;
      if disk.packageJson.None? {
        exitCode := RunWithoutPackageJson(modules, extra);
      } else if !disk.packageJson.value.Unparsable? {
        exitCode, interrupted := RunWithCopiedPackageJson(modules, extra, disk.packageJson.value);
      }
    }

    /** package.json exists: it is copied before it is changed, then the copy is moved back. */
    method RunWithCopiedPackageJson(modules: seq<Module>, extra: seq<Module>, entry: PackageFile)
      returns (exitCode: Option<int>, ghost interrupted: bool)
      requires Valid() && world.Launchable(disk, modules) && disk.packageJson == Some(entry) && !entry.Unparsable?
      modifies this
      ensures Valid() && old(history) <= history
      ensures disk == old(disk).(
                        installed := disk.installed, packageJson := disk.packageJson, packageCopy := disk.packageCopy)
      ensures !ioFailed ==>
                && !old(ioFailed) && disk.packageJson == Some(entry)
                && disk.packageCopy == if LeavesCopy(Some(entry), extra) && !interrupted then Some(entry) else None
      ensures exitCode.Some? ==> disk.packageJson == Some(entry) && disk.packageCopy.None?
      ensures Holds(disk, entry) && KeptSince(|old(history)|, history, entry)
      ensures Launched(old(launches), launches, modules, TemporaryPackage(Some(entry), extra), Some(entry))
      ensures !ioFailed && lastSignal.None? && !LeavesCopy(Some(entry), extra) ==> launches != old(launches)
      ensures world.SameElsewhere(old(disk), disk, modules)
      ensures Ran(old(launches), launches, old(disk), disk, exitCode)
      ensures !ioFailed && launches != old(launches) ==> exitCode == launches[|old(launches)|].exitCode
      ensures interrupted ==> exitCode.None? && lastSignal.Some?
    {
      exitCode, interrupted := None, false;
      // fs.copy(packageJsonPath, packageJsonCopyPath)
      var partial: Option<PackageFile> := *;
      PackageStep(disk.packageJson, partial);
      var ok := Attempt();
      if !ok {
        return;
      }
      PackageStep(disk.packageJson, disk.packageJson);
      if lastSignal.Some? {
        interrupted := true;
        ok := Attempt();
        if ok {
          PackageStep(disk.packageJson, None);
        }
        return;
      }
      var temporary := AddMissing(entry, extra);
      if temporary.None? {
        return;
      }
      exitCode := RunTemporarily(modules, temporary.value, entry);
    }

    /** The `try` and `finally` of that case. */
    method RunTemporarily(modules: seq<Module>, temporary: PackageFile, entry: PackageFile)
      returns (exitCode: Option<int>)
      requires Valid() && world.Launchable(disk, modules)
      requires disk.packageJson == disk.packageCopy == Some(entry)
      modifies this
      ensures Valid() && old(history) <= history
      ensures disk == old(disk).(
                        installed := disk.installed, packageJson := disk.packageJson, packageCopy := disk.packageCopy)
      ensures !ioFailed ==> !old(ioFailed) && disk.packageJson == Some(entry) && disk.packageCopy.None?
      // There is an exit code only when the file is back.
      ensures exitCode.Some? ==> disk.packageJson == Some(entry) && disk.packageCopy.None?
      ensures Holds(disk, entry) && KeptSince(|old(history)|, history, entry)
      ensures Launched(old(launches), launches, modules, temporary, Some(entry))
      ensures !ioFailed && lastSignal.None? ==> launches != old(launches)
      ensures world.SameElsewhere(old(disk), disk, modules)
      ensures Ran(old(launches), launches, old(disk), disk, exitCode)
      ensures !ioFailed && launches != old(launches) ==> exitCode == launches[|old(launches)|].exitCode
    {
      exitCode := RunWithPackageJson(modules, temporary);
      var ok := MoveCopyBack();
      if !ok {
        exitCode := None;
      }
    }

    /** `fs.move(packageJsonCopyPath, packageJsonPath, { overwrite: true })`, which removes, then renames. */
    method MoveCopyBack() returns (ok: bool)
      requires Valid() && disk.packageCopy.Some?
      modifies this`disk, this`history, this`lastSignal, this`ioFailed
      ensures Valid() && old(history) <= history && ioFailed == (old(ioFailed) || !ok)
      ensures disk == old(disk).(packageJson := disk.packageJson, packageCopy := disk.packageCopy)
      ensures ok ==> disk.packageJson == old(disk.packageCopy) && disk.packageCopy.None?
      ensures !ok ==> disk.packageCopy == old(disk.packageCopy) && disk.packageJson in {old(disk.packageJson), None}
      ensures KeptSince(|old(history)|, history, old(disk.packageCopy).value)
      ensures old(lastSignal).Some? ==> lastSignal.Some?
    {
      ok := Attempt();
      var removed: bool := *;
      if ok || removed {
        PackageStep(None, disk.packageCopy);
      }
      if ok {
        PackageStep(disk.packageCopy, None);
      }
    }

    /** The temporary package.json, unless the code throws (`None`). */
    method AddMissing(entry: PackageFile, extra: seq<Module>) returns (temporary: Option<PackageFile>)
      requires !entry.Unparsable?
      ensures temporary.None? <==> LeavesCopy(Some(entry), extra)
      ensures temporary.Some? ==> temporary.value == TemporaryPackage(Some(entry), extra)
    {
      if entry.JsonPrimitive? {
        return None;
      }
      if entry.JsonObject? && entry.dependencies.Null? {
        return if extra == [] then Some(entry) else None;
      }
      var versions := if entry.JsonObject? && entry.dependencies.Entries? then entry.dependencies.versions else map[];
      ghost var first := versions;
      for i := 0 to |extra|
        invariant versions == TemporaryVersions(first, extra[..i])
      {
        assert extra[..i + 1][..i] == extra[..i];
        if !(extra[i] in versions && versions[extra[i]].Truthy()) {
          versions := versions[extra[i] := Range("*")];
        }
      }
      assert extra[..|extra|] == extra;
      // JSON.stringify drops what was assigned to an array
      return Some(if HasArray(Some(entry)) then entry else JsonObject(Entries(versions), entry.rest));
    }

    method ListAll(extra: seq<Module>) returns (versions: map<Module, Version>)
      ensures versions == TemporaryVersions(map[], extra)
    {
      versions := map[];
      for i := 0 to |extra|
        invariant versions == TemporaryVersions(map[], extra[..i])
      {
        assert extra[..i + 1][..i] == extra[..i];
        TemporaryVersionsOverwriteExactlyFalsyEntries(map[], extra[..i]);
        versions := versions[extra[i] := Range("*")];
      }
      assert extra[..|extra|] == extra;
    }

    /** package.json does not exist: one is created, then removed. */
    method RunWithoutPackageJson(modules: seq<Module>, extra: seq<Module>) returns (exitCode: Option<int>)
      requires Valid() && world.Launchable(disk, modules) && disk.packageJson.None?
      modifies this
      ensures Valid() && old(history) <= history
      ensures disk == old(disk).(installed := disk.installed, packageJson := disk.packageJson)
      ensures !ioFailed ==> !old(ioFailed) && disk.packageJson.None?
      ensures exitCode.Some? ==> disk.packageJson.None?
      ensures forall i | |old(history)| <= i < |history| :: history[i].packageCopy == old(disk.packageCopy)
      ensures Launched(old(launches), launches, modules, TemporaryPackage(None, extra), old(disk.packageCopy))
      ensures !ioFailed && lastSignal.None? ==> launches != old(launches)
      ensures world.SameElsewhere(old(disk), disk, modules)
      ensures Ran(old(launches), launches, old(disk), disk, exitCode)
      // Removing the created file throws when electron-rebuild has removed it.
      ensures !ioFailed && launches != old(launches) ==>
                var l := launches[|old(launches)|]; exitCode == if l.left.packageJson.None? then None else l.exitCode
    {
      var versions := ListAll(extra);
      exitCode := RunWithPackageJson(modules, JsonObject(Entries(versions), "theia-rebuild-workaround"));
      // finally: fs.unlink(packageJsonPath), which throws when the file is gone
      if disk.packageJson.None? {
        return None;
      }
      var ok := Attempt();
      if !ok {
        return None;
      }
      PackageStep(None, disk.packageCopy);
    }

    /** The body of the workaround's `try`: write the temporary file, check for a signal, run. */
    method RunWithPackageJson(modules: seq<Module>, packageJson: PackageFile) returns (exitCode: Option<int>)
      requires Valid() && world.Launchable(disk, modules)
      modifies this
      ensures Valid() && old(history) <= history
      ensures disk == old(disk).(installed := disk.installed, packageJson := disk.packageJson)
      ensures !ioFailed ==> !old(ioFailed)
      ensures forall i | |old(history)| <= i < |history| :: history[i].packageCopy == old(disk.packageCopy)
      ensures Launched(old(launches), launches, modules, packageJson, old(disk.packageCopy))
      ensures world.SameElsewhere(old(disk), disk, modules)
      ensures Ran(old(launches), launches, old(disk), disk, exitCode)
      ensures launches != old(launches) ==>
                exitCode == launches[|old(launches)|].exitCode && disk == launches[|old(launches)|].left
      ensures !ioFailed && lastSignal.None? ==> launches != old(launches)
      ensures old(lastSignal).Some? ==> lastSignal.Some? && exitCode.None? && launches == old(launches)
    {
      exitCode := None;
      var partial: Option<PackageFile> := *;
      PackageStep(partial, disk.packageCopy);
      var ok := Attempt();
      if ok {
        PackageStep(Some(packageJson), disk.packageCopy);
        if lastSignal.None? {
          exitCode := RunElectronRebuild(modules);
        }
      }
    }

    /** `recorded` is what was backed up. */
    method RebuildElectronModules(modules: seq<Module>, workaround: bool)
      returns (outcome: Outcome, ghost recorded: set<Module>)
      requires Valid() && !disk.cacheFolder && world.NoNamesake(modules)
      modifies this
      ensures Valid() && old(history) <= history
      ensures world.SameElsewhere(old(disk), disk, modules)
      ensures outcome.Threw? || outcome.Exit?
      ensures outcome.Threw? ==> ioFailed
      ensures !workaround ==> LaunchedAsItIs(old(disk), old(launches), launches, disk)
      ensures !ioFailed ==> !old(ioFailed)
      ensures recorded <= world.Requested(modules) && (!ioFailed ==> recorded == world.Requested(modules))
      // Nothing recorded, be it that every backup failed: the code is 0, there is no manifest, and only the
      // cache may have changed.
      ensures recorded == {} ==>
                outcome == Exit(0) && disk == old(disk).(cacheFolder := disk.cacheFolder, backups := disk.backups)
      ensures world.Requested(modules) == {} ==> outcome == Exit(0) && disk == old(disk)
      ensures recorded != {} ==> StuckSince(|old(history)|, history)
      // Some but not all recorded: electron-rebuild does not start, and the code is not 0.
      ensures {} < recorded < world.Requested(modules) ==>
                && outcome in {Exit(1), Threw} && launches == old(launches) && disk.installed == old(disk.installed)
                && SameFiles(disk, old(disk))
      // Success: what can be reverted is exactly the resolved modules.
      ensures recorded != {} && outcome == Exit(0) ==>
                && disk.cacheFolder && BuiltBy(old(launches), launches, disk)
                && disk.manifest == Readable(map m | m in world.Requested(modules) :: world.resolve[m])
      // Without a file-system failure the exit code of electron-rebuild decides; any but 0 ends in the state before.
      ensures !ioFailed && lastSignal.None? && recorded != {} && MayRun(old(disk), workaround, modules) ==>
                launches != old(launches)
      ensures !ioFailed && recorded != {} ==>
                world.EndsAs(old(disk), workaround, old(launches), launches, outcome, disk)
      ensures !ioFailed && workaround ==> disk.packageJson == old(disk.packageJson)
      ensures workaround ==> Keeps(old(disk), |old(history)|, history, disk)
      ensures !ioFailed && workaround && recorded != {} && !SafeToRebuild(old(disk)) ==>
                !Holds(disk, old(disk.packageCopy).value)
      ensures workaround ==> LaunchedOn(old(disk), modules, old(launches), launches)
    {
      var tasks := world.Requested(modules);
      var modulesJson, success := BackUp(tasks);
      recorded := modulesJson.Keys;
      ghost var backedUp := history;
      outcome := RebuildBackedUp(modules, workaround, modulesJson, success);
      forall content | workaround && Secure(old(disk), content) ensures KeptSince(|old(history)|, history, content) {
        KeptAfter(old(history), backedUp, history, old(disk), content);
      }
      if recorded != {} {
        StuckLater(|old(history)|, |backedUp|, history, history);
      }
    }

    /** Writes the first manifest. */
    method RecordBackups(modulesJson: map<Module, Location>) returns (ok: bool)
      requires Valid() && disk.manifest.Absent? && disk.cacheFolder
      requires forall m | m in modulesJson ::
                 m in world.resolve && modulesJson[m] == world.resolve[m] && world.BackedUp(disk, m)
      modifies this`disk, this`history, this`lastSignal, this`ioFailed
      ensures Valid() && Appended(old(history), history, old(disk)) && StuckSince(|old(history)|, history)
      ensures disk == old(disk).(manifest := if ok then Readable(modulesJson) else Unreadable)
      ensures ioFailed == (old(ioFailed) || !ok)
    {
      assert forall m | m in world.resolve :: world.ModuleSafe(disk, m);
      ok := WriteManifest(modulesJson);
    }

    /** The rest of `rebuildElectronModules`, with what the backup tasks have left in its variables. */
    method RebuildBackedUp(modules: seq<Module>, workaround: bool, modulesJson: map<Module, Location>, success: bool)
      returns (outcome: Outcome)
      requires Valid() && disk.manifest.Absent? && world.NoNamesake(modules)
      requires modulesJson.Keys <= world.Requested(modules)
      requires forall m | m in modulesJson :: modulesJson[m] == world.resolve[m] && world.BackedUp(disk, m)
      requires success <==> modulesJson.Keys == world.Requested(modules)
      requires modulesJson != map[] ==> disk.cacheFolder
      modifies this
      ensures Valid() && old(history) <= history
      ensures world.SameElsewhere(old(disk), disk, modules)
      ensures outcome.Threw? || outcome.Exit?
      ensures outcome.Threw? ==> ioFailed
      ensures !workaround ==> LaunchedAsItIs(old(disk), old(launches), launches, disk)
      ensures !ioFailed ==> !old(ioFailed)
      ensures modulesJson == map[] ==> outcome == Exit(0) && disk == old(disk)
      ensures modulesJson != map[] ==> StuckSince(|old(history)|, history)
      ensures modulesJson != map[] && !success ==>
                && outcome in {Exit(1), Threw} && launches == old(launches)
                && disk == old(disk).(manifest := disk.manifest)
      ensures modulesJson != map[] && outcome == Exit(0) ==>
                && success && disk.cacheFolder && disk.manifest == Readable(modulesJson)
                && disk.backups == old(disk.backups) && BuiltBy(old(launches), launches, disk)
      ensures !ioFailed && lastSignal.None? && success && modulesJson != map[]
              && MayRun(old(disk), workaround, modules) ==>
                launches != old(launches)
      ensures !ioFailed && success && modulesJson != map[] ==>
                world.EndsAs(old(disk), workaround, old(launches), launches, outcome, disk)
      ensures !ioFailed && workaround ==> disk.packageJson == old(disk.packageJson)
      ensures workaround ==> Keeps(old(disk), |old(history)|, history, disk)
      ensures !ioFailed && workaround && success && modulesJson != map[] && !SafeToRebuild(old(disk)) ==>
                !Holds(disk, old(disk.packageCopy).value)
      ensures workaround ==> LaunchedOn(old(disk), modules, old(launches), launches)
    {
      if modulesJson == map[] {
        return Exit(0);
      }
      var ok := RecordBackups(modulesJson);
      ghost var written := history;
      if !ok {
        outcome := Threw;
      } else if !success {
        outcome := Exit(1);
      } else {
        outcome := BuildOrRevert(modules, workaround);
      }
      StuckLater(|old(history)|, |old(history)|, written, history);
      forall content | workaround && Secure(old(disk), content) ensures KeptSince(|old(history)|, history, content) {
        KeptAfter(old(history), written, history, old(disk), content);
      }
    }

    /** The `try` and `finally` around electron-rebuild. */
    method BuildOrRevert(modules: seq<Module>, workaround: bool) returns (outcome: Outcome)
      requires Valid() && world.Launchable(disk, modules)
      modifies this
      ensures Valid() && old(history) <= history
      ensures world.SameElsewhere(old(disk), disk, modules)
      ensures outcome.Threw? || outcome.Exit?
      ensures !ioFailed ==> !old(ioFailed)
      ensures outcome == Exit(0) ==>
                && disk.cacheFolder && disk.manifest == old(disk.manifest) && disk.backups == old(disk.backups)
                && BuiltBy(old(launches), launches, disk)
      ensures !ioFailed && lastSignal.None? && MayRun(old(disk), workaround, modules) ==>
                launches != old(launches)
      ensures outcome.Threw? ==> ioFailed
      ensures outcome == Exit(0) && workaround ==>
                && disk.packageJson == old(disk.packageJson)
                && disk.packageCopy == if old(disk.packageJson).Some? then None else old(disk.packageCopy)
      ensures !workaround ==> LaunchedAsItIs(old(disk), old(launches), launches, disk)
      ensures !ioFailed ==> world.EndsAs(old(disk), workaround, old(launches), launches, outcome, disk)
      ensures !ioFailed && workaround ==> disk.packageJson == old(disk.packageJson)
      ensures workaround ==> Keeps(old(disk), |old(history)|, history, disk)
      ensures !ioFailed && workaround && !SafeToRebuild(old(disk)) ==> !Holds(disk, old(disk.packageCopy).value)
      ensures workaround ==> LaunchedOn(old(disk), modules, old(launches), launches)
    {
      var exitCode: Option<int>;
      if workaround {
        ghost var interrupted;
        exitCode, interrupted := RunWithExtraModules(modules, RebuildNames(modules));
      } else {
        exitCode := RunElectronRebuild(modules);
      }
      if exitCode != Some(0) {
        ghost var ran := history;
        ghost var left := disk;
        var reverted := RevertBrowserModules(modules);
        forall content | workaround && Secure(old(disk), content) ensures KeptSince(|old(history)|, history, content) {
          assert Holds(left, content);
          KeptBefore(|old(history)|, ran, history, left, content);
        }
        if reverted.Threw? {
          return Threw;
        }
      }
      outcome := Exit(if exitCode.Some? then exitCode.value else 1);
    }

    method RevertBrowserModules(modules: seq<Module>) returns (outcome: Outcome)
      requires Valid()
      modifies this`disk, this`history, this`lastSignal, this`ioFailed
      ensures Valid() && Appended(old(history), history, old(disk))
      ensures outcome.Threw? || outcome.Exit?
      ensures disk.packageJson == old(disk.packageJson) && disk.packageCopy == old(disk.packageCopy)
      ensures !ioFailed ==> !old(ioFailed)
      ensures !old(disk.manifest).Readable? ==> outcome.Threw? && disk == old(disk)
      // Without failures every requested module is back, and the cache stays only for the others.
      ensures !ioFailed && old(disk.manifest).Readable? ==> world.RevertedAll(old(disk), modules, disk)
      // With or without failures, what is left on disk and what the exit code tells about it.
      ensures outcome.Threw? ==> ioFailed || !old(disk.manifest).Readable?
      ensures outcome.Exit? ==> world.Reverted(old(disk), modules, outcome.code, disk)
      ensures world.SameElsewhere(old(disk), disk, modules)
      ensures old(lastSignal).Some? ==> lastSignal.Some?
    {
      if !disk.manifest.Readable? {
        return Threw;
      }
      var ok := Attempt();
      if !ok {
        return Threw;
      }
      var tasks := set m | m in disk.manifest.entries && m in modules;
      ghost var first := disk;
      var modulesJson, exitCode := RevertTasks(tasks);
      world.TasksStayInFolders(first, disk, tasks, modules, modulesJson, exitCode);
      ghost var before, was := disk, history;
      ok := UpdateManifest(modulesJson);
      AppendedTwice(old(history), was, history, old(disk), before);
      if !ok {
        return Threw;
      }
      world.RevertIsComplete(first, before, disk, modules, tasks, modulesJson, exitCode);
      return Exit(exitCode);
    }

    /** The concurrent revert tasks; `modulesJson` keeps the entries that were not restored. */
    method RevertTasks(tasks: set<Module>) returns (modulesJson: map<Module, Location>, exitCode: int)
      requires Valid() && disk.manifest.Readable? && tasks <= disk.manifest.entries.Keys
      modifies this`disk, this`history, this`lastSignal, this`ioFailed
      ensures Valid() && Appended(old(history), history, old(disk))
      ensures world.TasksDone(old(disk), disk, tasks, modulesJson, exitCode)
      ensures tasks == {} ==> disk == old(disk)
      ensures !ioFailed ==> !old(ioFailed) && modulesJson == disk.manifest.entries - tasks
      ensures old(lastSignal).Some? ==> lastSignal.Some?
    {
      var books := RevertBooks(disk.manifest.entries, 0, true);
      ghost var first := disk;
      var phase := map m | m in tasks :: ToCheck;
      while !AllSettled(phase)
        invariant Valid() && Appended(old(history), history, old(disk)) && phase.Keys == tasks
        invariant world.RevertProgress(first, disk, phase, books)
        invariant tasks != {} || disk == first
        invariant old(lastSignal).Some? ==> lastSignal.Some?
        invariant !ioFailed ==> !old(ioFailed) && books.clean
        decreases Work(phase, phase.Keys)
      {
        var m :| m in phase && !phase[m].Settled();
        ghost var before, was := disk, history;
        var next := RevertStep(m, phase[m], first.backups);
        AppendedTwice(old(history), was, history, old(disk), before);
        world.RevertAdvances(first, before, disk, phase, books, m, next);
        WorkDecreases(phase, m, next);
        phase, books := phase[m := next], books.After(m, next);
      }
      world.RevertSettled(first, disk, phase, books);
      modulesJson, exitCode := books.modulesJson, books.exitCode;
    }

    /** The end of the revert: delete the cache when nothing is left in it, else write the manifest. */
    method UpdateManifest(modulesJson: map<Module, Location>) returns (ok: bool)
      requires Valid() && disk.manifest.Readable?
      requires forall m | m in modulesJson :: m in disk.manifest.entries && modulesJson[m] == disk.manifest.entries[m]
      requires forall m | m in disk.manifest.entries && m !in modulesJson :: world.InPlace(disk, m)
      modifies this`disk, this`history, this`lastSignal, this`ioFailed
      ensures Valid() && Appended(old(history), history, old(disk)) && ioFailed == (old(ioFailed) || !ok)
      ensures disk.installed == old(disk.installed)
      ensures disk.packageJson == old(disk.packageJson) && disk.packageCopy == old(disk.packageCopy)
      ensures ok && modulesJson == map[] ==> world.Restored(disk)
      ensures ok && modulesJson != map[] ==> disk == old(disk).(manifest := Readable(modulesJson))
      ensures old(lastSignal).Some? ==> lastSignal.Some?
    {
      assert forall m | m in world.resolve :: world.ModuleSafe(disk, m);
      if modulesJson == map[] {
        ok := Attempt();
        if ok {
          Step(disk.(cacheFolder := false, backups := map[], manifest := Absent));
        }
      } else {
        ok := WriteManifest(modulesJson);
      }
    }

    /** One step of the revert task of `m`; tasks of other modules keep their state. */
    method RevertStep(m: Module, p: Phase, ghost backups: map<Module, Content>) returns (next: Phase)
      requires Valid() && disk.manifest.Readable? && m in disk.manifest.entries
      requires !p.Settled() && world.RevertState(disk, m, p, backups)
      modifies this`disk, this`history, this`lastSignal, this`ioFailed
      ensures Valid() && Appended(old(history), history, old(disk))
      ensures world.RevertMoves(old(disk), disk, m, next, backups) && next.StepsLeft() < p.StepsLeft()
      ensures !ioFailed ==> !next.Failed? && !old(ioFailed)
      ensures old(lastSignal).Some? ==> lastSignal.Some?
    {
      next := RevertStepOne(m, p, backups);
      world.OthersStay(old(disk), disk, m, backups);
    }

    /** The step itself: what it does to `m`, in one folder and one backup. */
    method RevertStepOne(m: Module, p: Phase, ghost backups: map<Module, Content>) returns (next: Phase)
      requires Valid() && disk.manifest.Readable? && m in disk.manifest.entries
      requires !p.Settled() && world.RevertState(disk, m, p, backups)
      modifies this`disk, this`history, this`lastSignal, this`ioFailed
      ensures Valid() && Appended(old(history), history, old(disk))
      ensures disk == old(disk).(installed := disk.installed, backups := disk.backups)
      ensures world.RevertState(disk, m, next, backups) && next.StepsLeft() < p.StepsLeft()
      ensures disk.backups == if next.Done? then old(disk.backups) - {m} else old(disk.backups)
      ensures SameOutside(old(disk.installed), disk.installed, {disk.manifest.entries[m]})
      ensures !ioFailed ==> !next.Failed? && !old(ioFailed)
      ensures old(lastSignal).Some? ==> lastSignal.Some?
    {
      match p {
        case ToCheck => // fs.pathExists(src)
          assert world.ModuleSafe(disk, m);
          return if m in disk.backups then ToClear else Missing;
        case ToClear => // fs.remove(dest)
          var ok := Attempt();
          if ok {
            InstallOne(m, None);
          }
          return if ok then ToCopy else Failed;
        case ToCopy => // fs.copy(src, dest, { overwrite: false }) starts
          var partial: Option<Content> := *;
          next := Copying(disk.manifest.entries[m] !in disk.installed);
          InstallOne(m, partial);
        case Copying(clean) => // the copy settles
          var ok := Attempt();
          if ok {
            var content := Copied(clean, disk.backups[m]);
            InstallOne(m, Some(content));
          }
          return if ok then ToDrop else Failed;
        case ToDrop => // fs.remove(src)
          var ok := Attempt();
          if ok {
            DropOne(m);
          }
          return if ok then Done else Failed;
      }
    }

    /** Remove the backup of a module that is back in place. */
    method DropOne(m: Module)
      requires Valid() && disk.manifest.Readable? && m in disk.manifest.entries && world.InPlace(disk, m)
      modifies this`disk, this`history, this`lastSignal, this`ioFailed
      ensures Valid() && Appended(old(history), history, old(disk)) && ioFailed == old(ioFailed)
      ensures disk == old(disk).(backups := old(disk.backups) - {m})
      ensures old(lastSignal).Some? ==> lastSignal.Some?
    {
      ghost var next := disk.(backups := disk.backups - {m});
      forall n | n in world.resolve ensures world.ModuleSafe(next, n) {
        assert world.ModuleSafe(disk, n);
      }
      Step(disk.(backups := disk.backups - {m}));
    }

    /** Put `content` (or nothing) where the manifest says the original was, while its backup is exact. */
    method InstallOne(m: Module, content: Option<Content>)
      requires Valid() && disk.manifest.Readable? && m in disk.manifest.entries && world.BackedUp(disk, m)
      modifies this`disk, this`history, this`lastSignal, this`ioFailed
      ensures Valid() && Appended(old(history), history, old(disk)) && ioFailed == old(ioFailed)
      ensures disk == old(disk).(installed := disk.installed)
      ensures forall n | n in world.resolve && n != m :: world.InPlace(disk, n) <==> old(world.InPlace(disk, n))
      ensures SameOutside(old(disk.installed), disk.installed, {disk.manifest.entries[m]})
      ensures content.None? ==> disk.manifest.entries[m] !in disk.installed
      ensures content == Some(world.originals[m]) ==> world.InPlace(disk, m)
      ensures old(lastSignal).Some? ==> lastSignal.Some?
    {
      var dest := disk.manifest.entries[m];
      var installed := match content case None => disk.installed - {dest} case Some(c) => disk.installed[dest := c];
      ghost var next := disk.(installed := installed);
      forall n | n in world.resolve ensures world.ModuleSafe(next, n) {
        assert world.ModuleSafe(disk, n);
      }
      Step(disk.(installed := installed));
    }

    method Rebuild(target: Target, modules: seq<Module>, workaround: bool) returns (outcome: Outcome)
      requires Valid() && lastSignal.None? && (Rebuilds(target, disk) ==> world.NoNamesake(modules))
      modifies this
      ensures Valid() && old(history) <= history
      ensures world.SameElsewhere(old(disk), disk, modules)
      ensures !ioFailed ==> !old(ioFailed)
      ensures outcome.AlreadyRebuilt? <==> target.BrowserOnly? || (target.Electron? <==> old(disk.cacheFolder))
      ensures outcome.AlreadyRebuilt? ==> disk == old(disk)
      ensures target.Browser? ==> SameFiles(disk, old(disk))
      ensures target.Browser? && !old(disk.manifest).Readable? ==>
                disk == old(disk) && (old(disk.cacheFolder) ==> outcome.Threw?)
      ensures !Rebuilds(target, old(disk)) ==> launches == old(launches)
      ensures Rebuilds(target, old(disk)) && world.Requested(modules) == {} ==> outcome == Exit(0) && disk == old(disk)
      ensures Rebuilds(target, old(disk)) && outcome == Exit(0) && world.Requested(modules) != {} ==>
                if disk.manifest.Absent? then
                  ioFailed && disk == old(disk).(cacheFolder := disk.cacheFolder, backups := disk.backups)
                else
                  && disk.cacheFolder && BuiltBy(old(launches), launches, disk) && StuckSince(|old(history)|, history)
                  && disk.manifest.Readable? && disk.manifest.entries.Keys == world.Requested(modules)
      ensures !ioFailed && Rebuilds(target, old(disk)) ==>
                && (world.Requested(modules) != {} ==>
                      world.EndsAs(old(disk), workaround, old(launches), launches, outcome, disk))
                && (lastSignal.None? && world.Requested(modules) != {} && MayRun(old(disk), workaround, modules) ==>
                      launches != old(launches))
                && (outcome != Exit(0) ==> world.Restored(disk))
                && (outcome == Exit(0) && world.Requested(modules) != {} ==> disk.manifest.Readable?)
                && (workaround ==> disk.packageJson == old(disk.packageJson))
      ensures !ioFailed && target.Browser? && old(disk.manifest).Readable? ==>
                world.RevertedAll(old(disk), modules, disk)
      ensures target.Browser? && outcome.Exit? ==> world.Reverted(old(disk), modules, outcome.code, disk)
      ensures target.Browser? && outcome.Threw? ==> ioFailed || !old(disk.manifest).Readable?
      // The content of package.json at every crash point: kept when it is secure, and otherwise lost.
      ensures Rebuilds(target, old(disk)) && workaround ==> Keeps(old(disk), |old(history)|, history, disk)
      ensures !Rebuilds(target, old(disk)) ==> KeepsAll(old(disk), |old(history)|, history, disk)
      ensures Rebuilds(target, old(disk)) && workaround && !SafeToRebuild(old(disk)) ==>
                ioFailed || world.Requested(modules) == {} || !Holds(disk, old(disk.packageCopy).value)
      ensures Rebuilds(target, old(disk)) && outcome.Threw? ==> ioFailed
      ensures Rebuilds(target, old(disk)) && !workaround ==> LaunchedAsItIs(old(disk), old(launches), launches, disk)
      ensures Rebuilds(target, old(disk)) && workaround ==> LaunchedOn(old(disk), modules, old(launches), launches)
    {
      var cacheExists := disk.cacheFolder;
      if target.Electron? && !cacheExists {
        ghost var recorded;
        outcome, recorded := RebuildElectronModules(modules, workaround);
      } else if target.Browser? && cacheExists {
        outcome := RevertBrowserModules(modules);
        forall content | Holds(old(disk), content) ensures KeptSince(|old(history)|, history, content) {
          KeptBefore(|old(history)|, old(history), history, old(disk), content);
        }
      } else {
        outcome := AlreadyRebuilt;
      }
    }

    /** A command runs in a process of its own, with a new exit token. */
    method StartProcess()
      requires Valid()
      modifies this`lastSignal
      ensures Valid() && lastSignal.None?
    {
      lastSignal := None;
    }

    /** Whether `rebuild` gets to `rebuildElectronModules`. */
    predicate Rebuilds(target: Target, d: Disk) {
      target.Electron? && !d.cacheFolder
    }

    /** An electron rebuild, whatever its outcome, followed by a browser rebuild restores everything. */
    method ElectronThenBrowser(modules: seq<Module>, workaround: bool)
      requires Valid() && !disk.cacheFolder && world.NoNamesake(modules)
      modifies this
      ensures Valid()
      ensures !ioFailed ==> world.Restored(disk)
      ensures !ioFailed && workaround ==> disk.packageJson == old(disk.packageJson)
    {
      assert forall m | m in world.resolve :: world.ModuleSafe(disk, m);
      StartProcess();
      var built := Rebuild(Electron, modules, workaround);
      if disk.cacheFolder && !ioFailed {
        assert NotRequested(disk.manifest.entries, modules) == map[];
      }
      StartProcess();
      var reverted := Rebuild(Browser, modules, workaround);
    }

    /** Repeating a target that succeeded (or the browser target in any case) changes nothing. */
    method Repeat(target: Target, modules: seq<Module>, workaround: bool) returns (first: Outcome, ghost between: Disk)
      requires Valid() && (target.Electron? ==> world.NoNamesake(modules))
      modifies this
      ensures Valid()
      ensures !ioFailed && (first == Exit(0) || first == AlreadyRebuilt || !target.Electron?) ==> disk == between
    {
      StartProcess();
      first := Rebuild(target, modules, workaround);
      between := disk;
      StartProcess();
      var second := Rebuild(target, modules, workaround);
    }

    /**
     * Any commands in any order, each with any modules, and a crash after any step of any of them: at
     * every recorded disk the original of each module is in its place or in the cache, electron-rebuild
     * never started before what it can touch was backed up, and whatever package.json or its copy held
     * stays in one of them when each electron rebuild is guarded.
     */
    method Session(commands: seq<Command>)
      requires Valid() && forall c | c in commands && c.target.Electron? :: world.NoNamesake(c.modules)
      modifies this
      ensures Valid() && old(history) <= history
      ensures forall i, m | 0 <= i < |history| && m in world.resolve ::
                world.InPlace(history[i], m) || world.BackedUp(history[i], m)
      ensures forall l | l in launches :: l.disk in history && world.Launchable(l.disk, l.modules)
      ensures Guarded(commands) ==> KeepsAll(old(disk), |old(history)|, history, disk)
    {
      for i := 0 to |commands|
        invariant Valid() && old(history) <= history
        invariant Guarded(commands) ==> KeepsAll(old(disk), |old(history)|, history, disk)
      {
        RunCommand(commands[i]);
      }
      forall i, m | 0 <= i < |history| && m in world.resolve
        ensures world.InPlace(history[i], m) || world.BackedUp(history[i], m)
      {
        assert history[i] in history && world.ModuleSafe(history[i], m);
      }
    }

    ghost predicate Guarded(commands: seq<Command>) {
      forall c | c in commands && c.target.Electron? :: c.workaround && c.guarded
    }

    /** One command, unless its guard refuses it; the process may die at any recorded disk of it. */
    method RunCommand(c: Command)
      requires Valid() && (c.target.Electron? ==> world.NoNamesake(c.modules))
      modifies this
      ensures Valid() && old(history) <= history
      ensures (c.target.Electron? ==> c.workaround && c.guarded) ==>
                KeepsAll(old(disk), |old(history)|, history, disk)
    {
      if c.guarded && c.target.Electron? && !SafeToRebuild(disk) {
        return;
      }
      SafeToRebuildIffAllSecure(disk);
      var start := |history|;
      StartProcess();
      var outcome := Rebuild(c.target, c.modules, c.workaround);
      var crashed: bool := *;
      if crashed && start < |history| {
        var at :| start <= at < |history|;
        Restart(at);
      }
    }

    /** The process died at a recorded disk and a new one starts there. */
    method Restart(at: nat)
      requires Valid() && at < |history|
      modifies this`disk, this`lastSignal, this`ioFailed
      ensures Valid() && disk == history[at] && !ioFailed && lastSignal.None?
    {
      assert history[at] in history;
      disk, lastSignal, ioFailed := history[at], None, false;
    }

    /**
     * How the content of package.json is lost: the process dies when electron-rebuild has started, a
     * browser rebuild reverts the modules, and another electron rebuild copies the temporary
     * package.json over the copy. No file operation has to fail for that, and every run that would
     * have succeeded has that point.
     */
    method LosePackageJson(modules: seq<Module>, entry: PackageFile) returns (first: Outcome, started: bool)
      requires Valid() && !disk.cacheFolder && world.NoNamesake(modules) && world.Requested(modules) != {}
      requires disk.packageJson == Some(entry) && TemporaryPackage(Some(entry), RebuildNames(modules)) != entry
      modifies this
      ensures first == Exit(0) && !ioFailed ==> started
      ensures started && !ioFailed ==> !Holds(disk, entry)
    {
      var before := |launches|;
      StartProcess();
      first := Rebuild(Electron, modules, true);
      started := |launches| > before;
      if started {
        var launch := launches[before];
        assert launch in launches;
        var at :| 0 <= at < |history| && history[at] == launch.disk;
        Restart(at);
        RevertAndRebuild(modules);
      }
    }

    /** What is done after that crash: the copy that is left differs from a readable package.json. */
    method RevertAndRebuild(modules: seq<Module>)
      requires Valid() && lastSignal.None? && world.Launchable(disk, modules) && world.Requested(modules) != {}
      requires !SafeToRebuild(disk)
      modifies this
      ensures Valid() && (!ioFailed ==> !Holds(disk, old(disk.packageCopy).value))
    {
      assert NotRequested(disk.manifest.entries, modules) == map[];
      var reverted := Rebuild(Browser, modules, true);
      StartProcess();
      var second := Rebuild(Electron, modules, true);
    }

    /** Both targets on a stuck disk: one does nothing, the other throws. */
    method TryBoth(modules: seq<Module>, workaround: bool) returns (electron: Outcome, browser: Outcome)
      requires Valid() && Stuck(disk)
      modifies this
      ensures Valid() && electron.AlreadyRebuilt? && browser.Threw? && disk == old(disk)
    {
      StartProcess();
      electron := Rebuild(Electron, modules, workaround);
      StartProcess();
      browser := Rebuild(Browser, modules, workaround);
    }

    /**
     * When every backup fails, the exit code is 0 and there is no manifest. If the cache folder was
     * created, both targets are stuck from then on.
     */
    method StuckAfterFailedBackups(modules: seq<Module>, workaround: bool)
      returns (first: Outcome, electron: Outcome, browser: Outcome)
      requires Valid() && !disk.cacheFolder && world.NoNamesake(modules)
      modifies this
      ensures Valid()
      ensures first == Exit(0) && disk.manifest.Absent? ==>
                && disk.installed == old(disk.installed) && SameFiles(disk, old(disk))
                && (disk.cacheFolder ==> electron.AlreadyRebuilt? && browser.Threw?)
    {
      StartProcess();
      first := Rebuild(Electron, modules, workaround);
      electron, browser := first, first;
      if Stuck(disk) {
        electron, browser := TryBoth(modules, workaround);
      }
    }

    /**
     * Every electron rebuild that succeeds has a crash point where both targets are stuck afterwards:
     * while the manifest is written.
     */
    method StuckAfterCrash(modules: seq<Module>, workaround: bool) returns (first: Outcome, crashed: bool)
      requires Valid() && !disk.cacheFolder && world.NoNamesake(modules) && world.Requested(modules) != {}
      modifies this
      ensures Valid()
      ensures first == Exit(0) && !ioFailed ==> crashed
      ensures crashed ==> Stuck(disk)
    {
      var start := |history|;
      StartProcess();
      first := Rebuild(Electron, modules, workaround);
      crashed := exists i | start <= i < |history| :: Stuck(history[i]);
      if crashed {
        var at :| start <= at < |history| && Stuck(history[at]);
        Restart(at);
        var electron, browser := TryBoth(modules, workaround);
      }
    }

    /**
     * A browser rebuild after a crash at any step. Without failures it restores everything exactly when
     * the crash left a readable manifest with listed modules only, or no cache; it throws, and changes
     * nothing, exactly when the disk is stuck.
     */
    method RecoverFromCrash(at: nat, modules: seq<Module>) returns (outcome: Outcome)
      requires Valid() && at < |history|
      modifies this
      ensures Valid()
      ensures var d := old(history)[at];
              && (Stuck(d) ==> outcome.Threw? && disk == d)
              && (!ioFailed ==> (outcome.Threw? <==> Stuck(d)))
              && (!ioFailed ==> (world.Restored(disk) <==> !Stuck(d) && AllListed(d.manifest, modules)))
    {
      Restart(at);
      assert forall m | m in world.resolve :: world.ModuleSafe(disk, m);
      assert disk.manifest.Readable? ==>
          (NotRequested(disk.manifest.entries, modules) == map[] <==> AllListed(disk.manifest, modules)) by {
        if disk.manifest.Readable? && !AllListed(disk.manifest, modules) {
          var m :| m in disk.manifest.entries && m !in modules;
          assert m in NotRequested(disk.manifest.entries, modules);
        }
      }
      outcome := Rebuild(Browser, modules, true);
    }
  }

  /** A cache folder without a readable manifest: the backups in it are out of reach of both targets. */
  predicate Stuck(d: Disk) {
    d.cacheFolder && !d.manifest.Readable?
  }

  predicate AllListed(manifest: Manifest, modules: seq<Module>) {
    manifest.Readable? ==> forall m | m in manifest.entries :: m in modules
  }

  ghost predicate StuckSince(start: nat, disks: seq<Disk>) {
    exists i {:trigger Stuck(disks[i])} :: start <= i < |disks| && Stuck(disks[i])
  }

  lemma StuckLater(start: nat, from: nat, disks: seq<Disk>, more: seq<Disk>)
    requires start <= from && disks <= more && StuckSince(from, disks)
    ensures StuckSince(start, more)
  {
    var i :| from <= i < |disks| && Stuck(disks[i]);
    assert more[i] == disks[i];
  }
}
