# Verified models of Theia's build and dev tooling

Dafny models of the parts of Theia's tooling that hold state, recurse or rewrite text, with proofs of
what they promise. `dafny verify dfyconfig.toml` checks the whole project.

| file | models | as |
|---|---|---|
| `Rebuild.dfy` | `rebuild.ts`: backup, rebuild and revert of native modules, with the package.json workaround | a class whose methods change a disk step by step; the tasks of a `Promise.all` interleave in any order |
| `Collector.dfy` | `extension-package-collector.ts` and the `dependent` getter | a class proved against a recursive walk, and theorems about the walk |
| `ApplicationPackage.dfy` | `computeModules` of `application-package.ts` | nested loops over the collected packages |
| `Localization.dfy` | `common.ts` and the objects that the localization tools share | ordered property lists, `sortLocalization` |
| `LocalizationExtractor.dfy`, `Dedent.dfy` | `insert`, its loop in `extractFromFile`, and `dedent` | in-place insertion proved against a recursive one; loops over lines |
| `LocalizationManager.dfy`, `IgnoreTags.dfy`, `DeeplApi.dfy` | `translateLanguage`, `buildLocalizationMap`, the ignore tags, chunking in `deepl` | a class that changes the target tree in place, proved against a recursive specification |
| `LocalizationFile.dfy` | runs of `localize` in `localization-manager.ts` on a translation file | theorems and a method over any number of runs |
| `Placeholders.dfy` | what the ignore tags promise: placeholders survive the translation | theorems over the scanners |
| `ApiFilter.dfy` | the paging search of `ovsx-api-filter.ts` | a loop proved against a search of the whole listing |
| `Router.dfy` | rules, mapping, merging and interleaving of `ovsx-router-client.ts` | loops with their specifications |
| `RoutedSearch.dfy` | that paging search with the router as its client | theorems that compose the two |
| `NpmRegistry.dfy` | the promise cache of `npm-registry.ts` | a state machine over events, and the class that takes its steps |
| `PackageLookup.dfy` | `findPackageJson` and `firstTime` of `shared-dependencies.js` | a class with both caches |
| `LineEndings.dfy` | `findEol` and `convertEol` of `bin-theia-re-exports.ts` | one scanner per regular expression |
| `LineReader.dfy` | `consumeStream` of `electron-performance.js` | a class with a buffer per stream |
| `Text.dfy`, `Wrappers.dfy` | `split` and `join`, missing values | shared helpers |

## What the environment is

- File system: a value of type `Disk`. Removing is atomic. A copy or a write that is under way, or that
  failed, leaves arbitrary content (an unreadable manifest for `modules.json`). Every operation may fail.
  The disk after every step is recorded, and a crash can happen at each of them.
- Signals: any step may deliver one.
- `electron-rebuild`: gets names without scope. It leaves anything in the folders of all modules with such
  a name and in package.json, and exits with any code or throws. It does not touch the module cache or the
  `.copy` file.
- No two modules resolve to one folder, and module names are not repeated in the list.
- Module resolution, package files, registries, version order, range satisfaction and the translation
  service are function parameters. Where a theorem needs a property of one of them (an honest pager, a
  service that translates each text by itself, a total preorder of versions), it is a named predicate.

## Where the code and its documentation differ

- `application-package.ts:104` documents the topological order. It holds exactly when the collected
  packages have no cycle (`TopologicalIffAcyclic`); `CycleIsNotTopological` is a graph where it fails.
- `dependent` throws for an extension package that the root names in `peerDependencies` only
  (`DependentIsDirect` says exactly when, `DependentThrowsForPeerDependencyOfRoot` is an input).
- The package.json workaround leaves its `.copy` file behind when the code between the copy and the `try`
  throws: for a package.json that is not an object but `null`, a number, a string or a boolean, and for
  `dependencies` that are `null` with a module listed (`RunWithExtraModules`, condition `LeavesCopy`). An
  existing dependency is overwritten when its value is one that JavaScript takes for false
  (`TemporaryVersionsOverwriteExactlyFalsyEntries`), and an array in place of package.json or of its
  `dependencies` never gets the listed modules (`TemporaryPackageListsModulesUnlessArray`).
- A leftover `.copy` can be overwritten. The content of package.json survives any commands and crashes when
  no electron rebuild starts on a disk that has a copy which differs from a readable package.json
  (`Session`, condition `SafeToRebuild`). On such a disk an electron rebuild that does not fail loses what
  the copy holds (`Rebuild`), and `LosePackageJson` is the run: a crash, a revert, another electron rebuild.
- electron-rebuild may rebuild an installed module that only shares its name without scope with a requested
  one, and of which there is no backup. Nothing is lost, whatever it leaves, if and only if there is no such
  module (`SafeToTouchIffNoNamesake`, condition `NoNamesake`; `NamesakeIsLost` has `@scope/name` and `name`).
  The session theorem therefore is about module lists without namesakes, or about the other modules
  (`OthersHaveNoNamesake`).
- When every backup fails, an electron rebuild ends with exit code 0 (`RebuildElectronModules`). Then, or after
  a crash, there may be a cache folder without a readable manifest. On such a disk both targets are stuck: one
  does nothing, the other throws (`TryBoth`, `StuckAfterFailedBackups`, `StuckAfterCrash`). A browser rebuild
  after a crash restores everything if and only if the disk is not stuck and the requested modules are all
  that the manifest lists (`RecoverFromCrash`).
- The rejection handler of `view` runs after the rejection. Until then a view returns the failed promise
  (`ViewBeforeHandler`; `EveryRunIsConsistent` says that this is the only time). It deletes by name, so it can
  evict the entry of a newer request. That happens exactly after an invalidation, a registry change or the
  handler of an older request (`LateFailureEvictsExactlyWhenReplaced`, with the runs
  `LateFailureDuplicatesRequest` and `OlderHandlerReplaces`).
- The loop of `findPackageJson` tests the starting path instead of the current directory, so without a
  package.json above it never ends (`CachedLoopEndsIffPackageAbove`, `SearchWithoutPackageNeverEnds`).
- The router reports the length of a merged page as the total, so the growing-page search stops after one page
  of 5 entries per registry. It finds what the merged listings have if and only if the first registry with a
  compatible entry has one on that page, or none has (`SearchThroughRouter`, as long as no entry occurs
  twice); `SixthEntryIsMissed` is an input.
- `findLatestCompatibleExtension` chooses the universal version over the one for the platform when either
  version is not valid, so the choice is the newest exactly when both are valid (`ChoiceIsLatest`).
- A text of the source whose entry in the target is an object leaves that object as it is (`IsMerge`).

## Model

| member | source | states |
|---|---|---|
| Rebuild.RebuildProcess.Session | dev-packages/application-manager/src/rebuild.ts:63-86 | for any sequence of commands with any module lists without namesakes, any failures, signals and task interleavings, and a crash after any step: at every recorded disk the manifest invariant holds and the original of each module is in place or exactly backed up; electron-rebuild never started without an exact backup, listed in the manifest, of each resolvable requested module; and if every electron rebuild is guarded by `SafeToRebuild`, whatever package.json or its copy held is in one of the two at every recorded disk |
| Rebuild.RebuildProcess.RunElectronRebuild | dev-packages/application-manager/src/rebuild.ts:213-234 | it may only start when the manifest on disk lists exactly the resolvable requested modules, each has an exact backup, and no other module has one of the names without scope that it gets; the run is recorded with its exit code and what it left, nothing changes outside the folders with those names, and whatever it leaves in them stays recoverable |
| Rebuild.World.SafeToTouchIffNoNamesake | dev-packages/application-manager/src/rebuild.ts:151-163 | once the requested modules are backed up and listed, electron-rebuild cannot lose anything if and only if no installed module outside the list has the name, without scope, of a requested one |
| Rebuild.NamesakeIsLost | dev-packages/application-manager/src/rebuild.ts:151-163 | for `@scope/name` requested and `name` installed, a state with every backup that the code makes, in which electron-rebuild may destroy the only copy of `name` |
| Rebuild.World.OthersHaveNoNamesake | dev-packages/application-manager/src/rebuild.ts:151-163 | what is proved under that condition holds of all modules but the exposed ones |
| Rebuild.RebuildProcess.BackUp | dev-packages/application-manager/src/rebuild.ts:115-140 | in every interleaving each recorded module has an exact copy, the tasks succeed exactly when all modules are recorded, without failures they do, and nothing but the cache changes |
| Rebuild.RebuildProcess.RebuildElectronModules | dev-packages/application-manager/src/rebuild.ts:109-174 | by what was backed up: nothing at all gives exit code 0 without a manifest or a change outside the cache, a part of it never starts electron-rebuild and never gives 0, and with everything the exit code is that of the recorded run of electron-rebuild, 0 leaving its folders and a manifest of exactly the resolved modules, any other leaving every original in place and no cache; the content of package.json is kept at every crash point |
| Rebuild.RebuildProcess.RebuildBackedUp | dev-packages/application-manager/src/rebuild.ts:141-174 | the part after the backups, for any set of recorded modules |
| Rebuild.RebuildProcess.BuildOrRevert | dev-packages/application-manager/src/rebuild.ts:158-173 | a run with exit code 0 ends with 0 and the folders as electron-rebuild left them, one with another code ends with that code and one that was killed or never started with 1, both undone completely; without failures and signals electron-rebuild is started; package.json is restored, its content being kept at every crash point |
| Rebuild.RebuildProcess.RevertBrowserModules | dev-packages/application-manager/src/rebuild.ts:176-211 | without failures every requested module is back, the cache disappears exactly when nothing is left in it, and the manifest keeps exactly the entries that were not requested; with failures too, exactly the backups of entries that are gone are dropped, and the exit code is 0 exactly when everything requested was restored and no backup was missing, and otherwise 1; a missing or unreadable manifest throws and changes nothing |
| Rebuild.RebuildProcess.RevertTasks | dev-packages/application-manager/src/rebuild.ts:180-202 | in every interleaving and with any failures, a module whose entry was removed is in place, exactly the backups of such modules are dropped, no other folder changes, and the exit code is 0 or 1 according to whether all tasks did their work |
| Rebuild.RebuildProcess.RevertStep | dev-packages/application-manager/src/rebuild.ts:184-201 | one step of one revert task changes one folder or drops one backup, keeps the state of all other tasks, and never gives up the backup before the original is in place |
| Rebuild.World.RevertSettled | dev-packages/application-manager/src/rebuild.ts:180-202 | once every task has settled, what the entries, backups and exit code are; without a failure the entries left are those not requested |
| Rebuild.World.RevertIsComplete | dev-packages/application-manager/src/rebuild.ts:203-210 | with the manifest written or the cache removed, that is what a browser rebuild leaves |
| Rebuild.RebuildProcess.UpdateManifest | dev-packages/application-manager/src/rebuild.ts:203-209 | an empty manifest removes the cache and leaves the restored state, any other is written and changes nothing else |
| Rebuild.RebuildProcess.Rebuild | dev-packages/application-manager/src/rebuild.ts:63-86 | which target runs, which is a no-op that leaves the disk unchanged, how the exit code of electron-rebuild decides what is left, that nothing changes outside the folders of the requested modules and their namesakes, and what happens to the content of package.json: kept at every recorded disk when the disk is `SafeToRebuild`, and otherwise gone from both files after a run without failures |
| Rebuild.SafeToRebuildIffAllSecure | dev-packages/application-manager/src/rebuild.ts:246-270 | the condition that a caller can check holds exactly when nothing in package.json or its copy would be overwritten |
| Rebuild.RebuildProcess.LosePackageJson | dev-packages/application-manager/src/rebuild.ts:246-289 | the run that loses package.json: whenever electron-rebuild was started, a crash at that point, a revert and another electron rebuild without failures leave its content in neither file |
| Rebuild.RebuildProcess.StuckAfterFailedBackups | dev-packages/application-manager/src/rebuild.ts:71-78 | after an electron rebuild whose backups all failed, with a cache folder created, the electron target does nothing and the browser target throws |
| Rebuild.RebuildProcess.TryBoth | dev-packages/application-manager/src/rebuild.ts:71-78 | on any disk with a cache folder but no readable manifest the electron target does nothing, the browser target throws, and the disk stays as it is |
| Rebuild.RebuildProcess.StuckAfterCrash | dev-packages/application-manager/src/rebuild.ts:111-150 | every electron rebuild that succeeds has a crash point after which both targets are stuck |
| Rebuild.RebuildProcess.ElectronThenBrowser | dev-packages/application-manager/src/rebuild.ts:63-86 | an electron rebuild with any outcome followed by a browser rebuild restores every module, removes the cache and restores package.json |
| Rebuild.RebuildProcess.Repeat | dev-packages/application-manager/src/rebuild.ts:72-78 | repeating a target that succeeded changes nothing on disk |
| Rebuild.RebuildProcess.RecoverFromCrash | dev-packages/application-manager/src/rebuild.ts:176-211 | a browser rebuild after a crash at any step: without failures it restores everything if and only if the crash left no cache, or a readable manifest of which all modules are requested; it throws, changing nothing, exactly when there is a cache without a readable manifest |
| Rebuild.RebuildProcess.RunWithExtraModules | dev-packages/application-manager/src/rebuild.ts:246-289 | on exit package.json has its entry content or is absent as before, the copy is gone except in the exactly stated cases, at every crash point the entry content is in package.json or its copy, and electron-rebuild is only ever started with the temporary version in package.json and the entry content in the copy |
| Rebuild.RebuildProcess.RunWithCopiedPackageJson | dev-packages/application-manager/src/rebuild.ts:248-270 | the same for an existing package.json with any JSON in it, whatever the callback does to it and whenever a signal arrives |
| Rebuild.RebuildProcess.RunTemporarily | dev-packages/application-manager/src/rebuild.ts:264-270 | the try and finally of that case: unless a file operation fails, package.json is back and the copy is gone |
| Rebuild.RebuildProcess.MoveCopyBack | dev-packages/application-manager/src/rebuild.ts:269 | the move back, which when it fails leaves the copy and may already have removed package.json |
| Rebuild.RebuildProcess.RunWithoutPackageJson | dev-packages/application-manager/src/rebuild.ts:271-288 | a package.json that did not exist is gone again |
| Rebuild.RebuildProcess.AddMissing | dev-packages/application-manager/src/rebuild.ts:256-263 | the temporary version, and that it throws exactly for a primitive and for null dependencies with a listed module |
| Rebuild.RebuildProcess.RunWithPackageJson | dev-packages/application-manager/src/rebuild.ts:264-268 | never touches the copy, does not run after a signal, and starts electron-rebuild with the file it was given |
| Rebuild.TemporaryVersionsOverwriteExactlyFalsyEntries | dev-packages/application-manager/src/rebuild.ts:259-263 | the temporary dependencies are the old ones plus the listed modules; an entry changes if and only if it is listed and its value is taken for false |
| Rebuild.TemporaryPackageKeepsTheRest | dev-packages/application-manager/src/rebuild.ts:256-280 | the temporary package.json, entry by entry: existing dependencies stay unless they are listed and an empty range, 0, false or null, the listed ones without a version get `*`, and the rest of the file does not change |
| Rebuild.TemporaryPackageListsModulesUnlessArray | dev-packages/application-manager/src/rebuild.ts:256-265 | electron-rebuild sees all listed modules as dependencies if and only if neither package.json nor its `dependencies` is an array |
| Rebuild.TemporaryPackageInputs | dev-packages/application-manager/src/rebuild.ts:256-265 | an overwritten empty range, `null` and 0, an array that does not get the module, and a `null` package.json that leaves the copy |
| Rebuild.RebuildNameDropsScope | dev-packages/application-manager/src/rebuild.ts:151-157 | a scope is cut off at the first slash, other names stay |
| Collector.ExtensionPackageCollector.Collect | dev-packages/application-package/src/extension-package-collector.ts:32-36 | the class computes the walk that the theorems are about |
| Collector.ExtensionPackageCollector.CollectPackages | dev-packages/application-package/src/extension-package-collector.ts:38-46 | the loop over dependencies takes the walk's steps and restores `parent` |
| Collector.ExtensionPackageCollector.CollectPackagesWithParent | dev-packages/application-package/src/extension-package-collector.ts:48-54 | nested packages get the given parent, and `parent` is restored afterwards |
| Collector.ExtensionPackageCollector.CollectPackage | dev-packages/application-package/src/extension-package-collector.ts:56-86 | one visit: at most once per name, post-order push, `parent` restored; terminates because unvisited names get fewer |
| Collector.Environment.DependenciesComeFirst | dev-packages/application-package/src/extension-package-collector.ts:38-86 | for every graph, cyclic ones included: a collected dependency comes before its dependent, or is that package or one of its ancestors |
| Collector.Environment.CollectsExactlyTheReachable | dev-packages/application-package/src/extension-package-collector.ts:56-86 | the visited names are the least set closed under the root's dependencies and those of visited extension packages, each resolved from the root or from a collected package that depends on it, and exactly the extensions among them are collected |
| Collector.Environment.PackagesExtend | dev-packages/application-package/src/extension-package-collector.ts:57-60 | a name keeps what it resolved to at its first visit, whoever depends on it later |
| Collector.Environment.CollectsEachNameOnce | dev-packages/application-package/src/extension-package-collector.ts:57-60 | no name is collected twice |
| Collector.Environment.CollectedIsSound | dev-packages/application-package/src/extension-package-collector.ts:75-84 | a collected package has the path its name resolved to from its parent (or the root), the version range of the first entry that its parent has for the name (`dependencies` before `peerDependencies`), its installed version, and the right `transitive` flag |
| Collector.Environment.CollectedFromParent | dev-packages/application-package/src/extension-package-collector.ts:38-84 | in terms of the installation alone: a collected package has the non-empty path that `resolveModule` answers to its parent (or to the root), the version range of the first entry for it in the `dependencies` of that package, or else in its `peerDependencies`, and the right `transitive` flag |
| Collector.Environment.VisitedFromDependents | dev-packages/application-package/src/extension-package-collector.ts:56-86 | in terms of the installation alone: visited are exactly the names that the root or a collected package depends on, each with an answer of `resolveModule` to one of them, and collected exactly those with a path to an extension |
| Collector.NestedPackageIsCollected | dev-packages/application-package/src/extension-package-collector.ts:64 | an installation in which the root and a package see different versions of a dependency: the nested one is collected |
| Collector.Environment.TopologicalIffAcyclic | dev-packages/application-package/src/application-package.ts:103-115 | the documented topological order holds if and only if the collected packages have no dependency cycle |
| Collector.CycleIsNotTopological | dev-packages/application-package/src/application-package.ts:103-115 | two extension packages that depend on each other are not in topological order |
| Collector.Environment.ParentPosition | dev-packages/application-package/src/extension-package-collector.ts:48-84 | the parent of a collected package is collected at a strictly later position |
| Collector.Environment.ChainCollected | dev-packages/application-package/src/extension-package.ts:86-108 | every package on a parent chain is collected, at one position, not before the package itself |
| Collector.ComputeDependent | dev-packages/application-package/src/extension-package.ts:86-97 | the loop up the parent chain ends with the topmost package, or throws without a parent |
| Collector.Environment.DependentIsDirect | dev-packages/application-package/src/extension-package.ts:86-108 | `dependent` of a collected package names a collected package that the root reaches directly; it throws exactly for a parentless package that the root lists in `peerDependencies` only |
| Collector.DependentThrowsForPeerDependencyOfRoot | dev-packages/application-package/src/extension-package.ts:86-97 | an input for which it throws |
| ApplicationPackage.ComputeModules | dev-packages/application-package/src/application-package.ts:185-202 | the map holds exactly the contributions of all extensions, in the order of packages and extensions, under distinct keys numbered 1 to n: the primary property unless it is missing or empty, otherwise the secondary one if there is one |
| ApplicationPackage.ModulesAreContributions | dev-packages/application-package/src/application-package.ts:188-199 | the modules of the specification are these contributions, from the property maps alone |
| ApplicationPackage.PrimaryBeforeSecondary | dev-packages/application-package/src/application-package.ts:192 | for an extension with both properties the primary one counts, for one with the secondary alone that one |
| ApplicationPackage.DependencyModulesComeFirst | dev-packages/application-package/src/application-package.ts:185-202 | every module of a dependency is listed before every module of its dependent, unless the two are on one parent chain |
| ApplicationPackage.KeysAreDistinct | dev-packages/application-package/src/application-package.ts:195 | keys of different numbers differ |
| Localizations.SortKeepsFlattening | dev-packages/localization-manager/src/common.ts:21-27 | sorting keeps the text at every path of keys |
| Localizations.SortSortsLevels | dev-packages/localization-manager/src/common.ts:21-27 | the keys are increasing at every level |
| Localizations.BeforeIsLexicographic | dev-packages/localization-manager/src/common.ts:21-27 | the order is the lexicographic one by characters |
| Localizations.SortIsIdempotent | dev-packages/localization-manager/src/common.ts:21-27 | sorting twice is sorting once |
| LocalizationExtractor.InsertRefinesMapUpdate | dev-packages/localization-manager/src/localization-extractor.ts:159-182 | insertion is a map update of the flattening; it fails if and only if an existing key is a proper `/`-prefix or extension of the new one, and the exception tells which |
| LocalizationExtractor.Extraction.InsertInPlace | dev-packages/localization-manager/src/localization-extractor.ts:159-182 | the in-place loop has that result, and leaves the tree unchanged when it throws |
| LocalizationExtractor.Extraction.InsertAll | dev-packages/localization-manager/src/localization-extractor.ts:118-131 | the loop of the extraction records each error and goes on |
| LocalizationExtractor.ExtractionIsPrefixFree | dev-packages/localization-manager/src/localization-extractor.ts:116-131 | the extracted tree is a trie, no key of it is a `/`-prefix of another, and each text comes from a pair with its key |
| LocalizationExtractor.EveryPairIsAcceptedOrExcluded | dev-packages/localization-manager/src/localization-extractor.ts:116-131 | a pair is only missing when a key that excludes it is there |
| LocalizationExtractor.ErrorsAreTheExcluded | dev-packages/localization-manager/src/localization-extractor.ts:118-131 | the recorded errors are, in order, those of exactly the pairs whose key is excluded by one that is there already, each naming the right exception |
| LocalizationExtractor.PairIsUpdateUnlessExcluded | dev-packages/localization-manager/src/localization-extractor.ts:118-131 | every pair that is not excluded is a map update |
| LocalizationExtractor.SortingKeepsTheExtraction | dev-packages/localization-manager/src/localization-extractor.ts:105-109 | sorting the extracted tree before it is written keeps every key and its text |
| Dedent.DedentText | dev-packages/localization-manager/src/localization-extractor.ts:420-444 | the result has the same lines, each but the first cut by one width, the least indentation of the non-blank ones |
| Dedent.OnlyWhiteSpaceIsRemoved | dev-packages/localization-manager/src/localization-extractor.ts:438-442 | a non-blank line loses exactly that width of white space, and no line loses anything else |
| Dedent.SpaceCodePoints | dev-packages/localization-manager/src/localization-extractor.ts:430-434 | white space is that of sections 12.2 and 12.3 of ECMA-262, by code points |
| Dedent.DedentIsIdempotent | dev-packages/localization-manager/src/localization-extractor.ts:420-444 | what is left has width 0 |
| Dedent.DedentedTwice | dev-packages/localization-manager/src/localization-extractor.ts:420-444 | the line count is kept and a second call returns the same text |
| Dedent.DedentedIsUnique | dev-packages/localization-manager/src/localization-extractor.ts:420-444 | the width and the lines determine the result |
| LocalizationManager.LocalizationMap.TranslateLanguage | dev-packages/localization-manager/src/localization-manager.ts:94-122 | what is sent is `addIgnoreTags` of exactly the missing texts of the source, in their order and in chunks of 50; on success the target is the recursive merge, each missing text being written out as tags added, translated, coerced, tags removed; on failure it is the prepared target; it fails only if a request fails; either way the target is an object that can be passed in again |
| LocalizationManager.LocalizationMap.TranslateMissing | dev-packages/localization-manager/src/localization-manager.ts:97-117 | the `try` block: what is sent, and that each answer goes through `removeIgnoreTags` to its own place |
| LocalizationManager.SlotsAreMissingLeaves | dev-packages/localization-manager/src/localization-manager.ts:145-164 | the collected texts are exactly the texts of the source for which the target has no entry, in the order of the source |
| LocalizationManager.TranslatedTexts | dev-packages/localization-manager/src/localization-manager.ts:94-122 | the merge along every path of keys |
| Placeholders.PlaceholderSurvives | dev-packages/localization-manager/src/localization-manager.ts:124-135 | for any service that keeps tagged placeholders, every placeholder of a text is in its translation |
| Placeholders.PlaceholderIsTagged | dev-packages/localization-manager/src/localization-manager.ts:124-129 | every placeholder of a text is sent in its own tags, whatever is around it |
| Placeholders.PlaceholderMeans | dev-packages/localization-manager/src/localization-manager.ts:127-128 | what the scanner finds is a brace, one or more decimal digits, and a brace |
| LocalizationManager.TranslationIsMerge | dev-packages/localization-manager/src/localization-manager.ts:94-172 | pruning, collecting, translating and writing back by index make exactly the recursive merge of source and old target |
| LocalizationManager.LocalizationMap.ProcessAt | dev-packages/localization-manager/src/localization-manager.ts:140-164 | the in-place recursion on one object of the tree has the specified effect there and nowhere else, and adds its missing texts in order |
| LocalizationManager.LocalizationMap.ProcessEntriesAt | dev-packages/localization-manager/src/localization-manager.ts:147-163 | its second loop, over the properties of the source |
| LocalizationManager.LocalizationMap.BuildLocalizationMap | dev-packages/localization-manager/src/localization-manager.ts:137-172 | the prepared target and the list of missing texts with their places |
| LocalizationManager.LocalizationMap.Localize | dev-packages/localization-manager/src/localization-manager.ts:149-151 | a write-back function assigns its own key of its own object |
| LocalizationManager.ProcessGet | dev-packages/localization-manager/src/localization-manager.ts:140-164 | what preparing leaves under each key |
| LocalizationManager.RetryIsEquivalent | dev-packages/localization-manager/src/localization-manager.ts:94-172 | after a failed call a second run asks for the same texts in the same order and ends in the same tree |
| LocalizationManager.TranslateUntilSuccess | dev-packages/localization-manager/src/localization-manager.ts:94-122 | the same of the code: however many calls fail, each asks for the same texts in the same order, and the first success leaves the tree that one successful call would have left |
| LocalizationFile.LocalizeUntilSuccess | dev-packages/localization-manager/src/localization-manager.ts:60-85 | runs of the program on the sorted file that each of them writes, whether it succeeded or not: however many fail, all ask for the same texts, and the file is in the end what one successful run would have written |
| LocalizationFile.TranslationFile.Run | dev-packages/localization-manager/src/localization-manager.ts:60-85 | one run on the file: it asks for the missing texts, and writes the target sorted, translated or only prepared |
| LocalizationFile.RetryThroughFileIsEquivalent | dev-packages/localization-manager/src/localization-manager.ts:60-85 | the file of a failed run needs the same texts in the same order, stays the same after another failure, and ends sorted as if the first run had succeeded |
| LocalizationManager.NothingLeftToDo | dev-packages/localization-manager/src/localization-manager.ts:94-172 | after a success a further run asks for nothing and changes nothing |
| IgnoreTags.AddIgnoreTagsEscapesAll | dev-packages/localization-manager/src/localization-manager.ts:124-129 | the chain of replaces escapes each special character once, so the only angle brackets are those of the tags |
| IgnoreTags.LeftmostPlaceholderIsWrapped | dev-packages/localization-manager/src/localization-manager.ts:127-128 | placeholders are wrapped one after the other from the left, whatever braces surround them |
| IgnoreTags.NothingToWrap | dev-packages/localization-manager/src/localization-manager.ts:127-128 | a text without placeholders gets no tags |
| IgnoreTags.IgnoreTagsRoundTrip | dev-packages/localization-manager/src/localization-manager.ts:124-135 | removing the tags undoes adding them, for every text |
| DeeplApi.Deepl | dev-packages/localization-manager/src/deepl-api.ts:29-55 | what is sent is the texts in order in chunks of 50, up to the first request that fails; the merged answer is, index by index, the coerced translation of each text; without a failed request there is an answer |
| DeeplApi.CoercedCharacterByCharacter | dev-packages/localization-manager/src/deepl-api.ts:97-110 | the six replaces map six full-width characters to those 0xfee0 before them in Unicode and no other |
| DeeplApi.Chunks | dev-packages/localization-manager/src/deepl-api.ts:34-38 | the chunks are the texts in order, each of at most 50 and all but the last of exactly 50 |
| ApiFilter.Filter.QueryLatestCompatibleExtension | dev-packages/ovsx-client/src/ovsx-api-filter.ts:68-91 | against an honest pager the search ends and returns exactly the first compatible entry of the whole listing, within the stated number of queries when pages are full; against a client whose first answer claims no more than it holds, it returns the first compatible entry of that answer |
| ApiFilter.QueryCount | dev-packages/ovsx-client/src/ovsx-api-filter.ts:69-89 | that number in closed form: 5 + ceil((n - 155) / 100) for n > 155, and at most 5 below |
| ApiFilter.FirstIsAtLeastIndex | dev-packages/ovsx-client/src/ovsx-api-filter.ts:93-101 | what first means: compatible, and nothing before it is |
| ApiFilter.Filter.LatestCompatibleIsFirstAccepted | dev-packages/ovsx-client/src/ovsx-api-filter.ts:93-101 | from versions and ranges alone: the result is the entry at the least index whose version is valid and at most the API version, if the first entry is of a built-in namespace, or whose engine (or `*`) is satisfied otherwise; none if there is none |
| ApiFilter.OtherExtensionsAreJudgedByEngine | dev-packages/ovsx-client/src/ovsx-api-filter.ts:98-99 | inputs: an extension newer than the API version is found, one whose engine asks for too much is not |
| ApiFilter.BuiltinExtensionsAreJudgedByVersion | dev-packages/ovsx-client/src/ovsx-api-filter.ts:96-97 | an input: the built-in extension that is too new is passed over, though its engine fits |
| ApiFilter.Filter.FirstPageIsEnoughIff | dev-packages/ovsx-client/src/ovsx-api-filter.ts:78-86 | looking at the first page only agrees with the search of the whole listing if and only if that page has a compatible entry or the listing has none |
| ApiFilter.Filter.FindLatestCompatibleExtension | dev-packages/ovsx-client/src/ovsx-api-filter.ts:50-66 | the first accepted entry of the listing for the platform, or of the universal listing if that is asked (for a platform that is neither universal nor web) and the former is missing or not known to be at least as new |
| ApiFilter.Filter.ChoiceIsLatest | dev-packages/ovsx-client/src/ovsx-api-filter.ts:50-66 | the chosen entry is at least as new as both candidates if and only if both versions are valid |
| Router.RunRules | dev-packages/ovsx-client/src/ovsx-router-client.ts:206-218 | the first rule that matches, if any |
| Router.FilterExtension | dev-packages/ovsx-client/src/ovsx-router-client.ts:196-202 | an entry survives exactly when the first matching rule names its registry or no rule matches |
| Router.SurvivorsAreExactly | dev-packages/ovsx-client/src/ovsx-router-client.ts:172-175 | the filtered list of a registry holds its surviving entries, each once and in their order |
| Router.CreateMapping | dev-packages/ovsx-client/src/ovsx-router-client.ts:230-236 | one result per distinct registry, in the order of first occurrence; of several calls for one registry the answer of the last counts |
| Router.Interleave | dev-packages/ovsx-client/src/ovsx-router-client.ts:242-253 | every entry of every list once, ordered by (index in its list, position of the list) lexicographically |
| Router.FairIsPermutation | dev-packages/ovsx-client/src/ovsx-router-client.ts:242-253 | the interleaving is a permutation of the entries of the lists |
| Router.FairKeepsOrder | dev-packages/ovsx-client/src/ovsx-router-client.ts:242-253 | each list keeps its order |
| Router.FairIsUnique | dev-packages/ovsx-client/src/ovsx-router-client.ts:242-253 | no other order is fair |
| Router.MergedSearch | dev-packages/ovsx-client/src/ovsx-router-client.ts:165-181 | the merged search is the fair interleaving of the filtered answers of the distinct registries, with the least of their offsets (infinite without registries) |
| Router.Search | dev-packages/ovsx-client/src/ovsx-router-client.ts:126-134 | the request is routed to the registries of the first matching rule or the default ones; a rule without registries gives an empty result with the offset of the request |
| Router.MergedQuery | dev-packages/ovsx-client/src/ovsx-router-client.ts:183-194 | the merged query is the survivors registry after registry, and its total is only the length of that page |
| RoutedSearch.SearchThroughRouter | dev-packages/ovsx-client/src/ovsx-router-client.ts:183-194 | with honest registries behind the router, the paging search returns the first compatible entry of the merged first pages; that is the one of the merged listings if, and when no entry occurs twice only if, the first registry with a compatible entry shows one on its first page or none has one |
| RoutedSearch.FirstOfPages | dev-packages/ovsx-client/src/ovsx-router-client.ts:183-194 | that equivalence for any pages that are beginnings of listings |
| RoutedSearch.Query | dev-packages/ovsx-client/src/ovsx-router-client.ts:161-163 | a query through the router gives the survivors of the pages of the distinct registries, and their number as the total |
| RoutedSearch.SixthEntryIsMissed | dev-packages/ovsx-client/src/ovsx-router-client.ts:189-193 | one registry whose only compatible entry is the sixth: its listing has it, the search through the router finds nothing |
| NpmRegistry.EveryRunIsConsistent | dev-packages/application-package/src/npm-registry.ts:116-150 | in every interleaving of events each indexed entry is the newest request for its name, was sent to the current registry, and has not failed unless its handler is still queued |
| NpmRegistry.NoFailureRemainsIndexed | dev-packages/application-package/src/npm-registry.ts:146-149 | once the queued handlers have run, in any order, no settled failure remains indexed |
| NpmRegistry.QuietRunsSharePendingRequests | dev-packages/application-package/src/npm-registry.ts:141-150 | without registry changes and invalidations there is at most one pending request per name, and every queued handler will only remove its own request |
| NpmRegistry.ViewReturnsCurrentRequest | dev-packages/application-package/src/npm-registry.ts:141-150 | a view returns the shared request of the current registry, and starts one only when there is none; it has failed only if its handler is queued |
| NpmRegistry.ViewBeforeHandler | dev-packages/application-package/src/npm-registry.ts:141-150 | a run in which a view returns the promise that has failed |
| NpmRegistry.RefreshedForGood | dev-packages/application-package/src/npm-registry.ts:116-150 | after an invalidation or a registry change, whatever happens next, no view returns a request that was started before |
| NpmRegistry.LateFailureEvictsExactlyWhenReplaced | dev-packages/application-package/src/npm-registry.ts:148 | while a handler is queued, the entry that it is going to remove is another, newer request exactly when an invalidation of the name, a registry change or the handler of an older request has come since its own request was indexed |
| NpmRegistry.LateFailureDuplicatesRequest | dev-packages/application-package/src/npm-registry.ts:116-150 | a run in which a late failure makes the same request start twice |
| NpmRegistry.OlderHandlerReplaces | dev-packages/application-package/src/npm-registry.ts:141-150 | a run in which the handler of an older request alone leads to the removal of a pending request |
| NpmRegistry.Registry.ViewName | dev-packages/application-package/src/npm-registry.ts:141-150 | the cached view is the view event: an indexed name changes nothing, any other starts one request to the current registry and indexes it |
| NpmRegistry.Registry.InvalidateName | dev-packages/application-package/src/npm-registry.ts:135-139 | deleting and viewing again is the invalidation event: an indexed name gets one new request, any other nothing |
| NpmRegistry.Registry.Update | dev-packages/application-package/src/npm-registry.ts:116-134 | a change of registry drops the whole index and no request, any other update nothing: the update event |
| NpmRegistry.Registry.Settle | dev-packages/application-package/src/npm-registry.ts:146-149 | the late success or failure of a request is that event of the state machine; a failure only queues the handler |
| NpmRegistry.Registry.HandleRejection | dev-packages/application-package/src/npm-registry.ts:148 | the queued handler is its own event: it removes the entry under the name of its request |
| PackageLookup.SharedDependenciesRule.FindPackageJson | dev-packages/private-eslint-plugin/rules/shared-dependencies.js:106-133 | the cached search returns what the uncached one returns, ends, and keeps the cache correct: a cached directory ends it without a change, otherwise exactly the directories on the way are cached |
| PackageLookup.NearestIsLongestPrefix | dev-packages/private-eslint-plugin/rules/shared-dependencies.js:111-133 | that is the package.json of the deepest directory at or above the start |
| PackageLookup.SharedDependenciesRule.ExpectedIsDeepestAbove | dev-packages/private-eslint-plugin/rules/shared-dependencies.js:106-133 | for the path of a file: the deepest directory with a package.json that it leads through, its own one only if it is a directory; nothing for the root |
| PackageLookup.LoopEndsIffPackageAbove | dev-packages/private-eslint-plugin/rules/shared-dependencies.js:116-132 | the loop ends if and only if the path is the root or some directory at or above the start has a package.json |
| PackageLookup.SharedDependenciesRule.CachedLoopEndsIffPackageAbove | dev-packages/private-eslint-plugin/rules/shared-dependencies.js:106-133 | the same for the loop with the cache, whatever is cached |
| PackageLookup.SharedDependenciesRule.SearchWithoutPackageNeverEnds | dev-packages/private-eslint-plugin/rules/shared-dependencies.js:116-132 | for a file in a tree without package.json no iteration returns, the loop staying at the root |
| PackageLookup.SharedDependenciesRule.FirstTime | dev-packages/private-eslint-plugin/rules/shared-dependencies.js:81-94 | true exactly the first time |
| PackageLookup.SharedDependenciesRule.Lint | dev-packages/private-eslint-plugin/rules/shared-dependencies.js:36-50 | over a whole run each package that the rule applies to is checked exactly once |
| LineEndings.ConvertEolJoinsLines | dev-packages/private-re-exports/src/bin-theia-re-exports.ts:145-151 | each replace equals splitting at CRLF, CR or LF and joining with the target |
| LineEndings.ConvertEolKeepsLines | dev-packages/private-re-exports/src/bin-theia-re-exports.ts:145-151 | the list of lines is kept |
| LineEndings.ConvertEolTwice | dev-packages/private-re-exports/src/bin-theia-re-exports.ts:145-151 | only the last of two conversions counts, so a conversion is idempotent |
| LineEndings.FindEolAfterConvert | dev-packages/private-re-exports/src/bin-theia-re-exports.ts:140-151 | a converted text of several lines is recognised as having the target line ending |
| LineReader.StreamConsumer.ConsumeStream | scripts/performance/electron-performance.js:157-175 | buffer and chunk, split at newlines, are the new lines and the new buffer, and the other stream is untouched |
| LineReader.StreamConsumer.ConsumeAll | scripts/performance/electron-performance.js:156-181 | for chunks of both streams in any order, the lines of a stream and its buffer are its whole text split at newlines |
| LineReader.ChunksDoNotMatter | scripts/performance/electron-performance.js:157-175 | two consumers that get the same text of a stream in different chunks, mixed differently with the other stream, hand over the same lines of it and end with the same buffer, and nothing of the text is lost |
| LineReader.NothingIsLost | scripts/performance/electron-performance.js:157-175 | the newline-terminated lines and the buffer are together the whole input |

## Left out

- Network, child processes and the real file system: parameters or nondeterministic outcomes, as listed above.
- `LocalizationMap`: a write-back function holds a reference to an object; the model holds the path to it, so aliasing between source and target, or between subtrees, is not covered.
- A cache path that is a file, duplicate module names, and the shell command line of electron-rebuild.
- `QueryLatestCompatibleExtension`: an honest listing needs one kind of namespace, because the first entry of a page decides how the page is judged; other clients that claim more than their first page holds are not covered, and need not end.
- Parsing of the router configuration, and the query side of request routing, which is the search side with another merge.
- Key order of integer-like keys and prototype keys of JavaScript objects, and modules named like an index or `length` of an array `dependencies`; the default sort compares UTF-16 units, the model compares characters, which differs for characters beyond the basic plane.
- TypeScript analysis in the extractor, `unescapeString`, the commands loop of `extractFromFile`, `deepmerge`, semver parsing.
- Console output (and with it the `optional` flag of the collector), rate limiting and retries of the translation service, language coercion, form encoding.
- The change feed of the npm registry: an invalidation is an event that may come at any time.
- The lint rule's import checks, JSON syntax errors in package.json files, drive letters.
- `ConsumeStream`: chunks are text. The source decodes each chunk by itself, so a character that is cut in two by a chunk boundary is damaged there.
- `parseStopwatchLog` and what is recorded from a line.
- Generators, bundler plugins, command-line wiring, ffmpeg, Playwright page objects: templates, plumbing or user interface.
