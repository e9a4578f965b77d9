# magicHotDeployer, modelled in Dafny

magicHotDeployer watches one or more source directory trees and mirrors
each change onto a deployment target: either a fixed directory or the
exploded package of a running JBoss. JBoss keeps that package below
`<jbossHome>/tmp/vfs/deployment/deployment*/<prefix>*`, so an edited file
reaches the running server without a redeploy.

The ini file is split into a shared fallback section (`config`, `default`
or `root`) and one section per watch instance. Each instance's
configuration is read from three places in priority order: the command
line, its own section, then the fallback. Each instance registers its
source tree with the operating system's watch service. For every
notification, it reflects the changed path into the target tree and
decides whether the path is a file or a folder. It then applies the filter
and copies, deletes or skips, retrying the whole attempt on failure. The
runner polls the instances and exits once none is alive.

The project is one Dafny module per concern:

| file | module | models |
|---|---|---|
| `wrappers.dfy` | `Wrappers` | `Option`, `Result`, `Outcome` |
| `paths.dfy` | `Paths` | paths as segment sequences, `Paths.get` on a string, printing a path |
| `integers.dfy` | `Integers` | Java `int` wrap-around, `Integer.valueOf`, `Integer.toString` |
| `filesystem.dfy` | `FileSystems` | the disk as a map from paths to nodes; `FileUtils.copyFile`, `File.delete`, `FileUtils.deleteDirectory`, `File.list` |
| `logging.dfy` | `Logging` | the log levels, `getLevelFromCode`, the process-wide filter level |
| `configuration.dfy` | `Configuration` | `readFromPrioritizedSource`, `reload`, `isJboss4` |
| `watching.dfy` | `Watching` | the watch service: keys, registration, reset |
| `deployer.dfy` | `JbossDeployer` | path reflection, one attempt, the retry loop, target discovery |
| `engine.dfy` | `Engine` | `MagicHotDeployerEngine`: registration, target cache, the event loop |
| `loader.dfy` | `EngineLoader` | `loadEngines`: section partitioning, configuring every instance |
| `runner.dfy` | `Runner` | `run`: load, start, poll for live instances |

The environment is an input to the model:
- The disk is a `FileSystem` object with a `tree` and a creation-time function.
- The watch service's batches are a sequence of `Batch` values.
- Which attempts fail on a locked or full disk is a per-event fault schedule. A faulted attempt fails before it touches the disk (see "## Left out").
- Regular expressions are a `RegexEngine` value, giving whether a pattern compiles and whether `find` succeeds.
- Which instance threads are alive at each poll is a function `alive(poll, instance)`.

Directory listings and tree walks come in an unspecified order, which the
model expresses as nondeterministic choice (`:|`).

The model follows the code, within the limits listed under "## Left out".
In particular, faults on a locked or full disk are all-or-nothing. Two
behaviours of the retry path need a note; the first is logged as a finding
and corrected:
- **Success never ends the retry loop.** `processEvent`
  (`JbossDeployer.java:34-59`) counts failed attempts against
  `maxRetries`, sleeps `retryDelay` between them and, once the count is
  exceeded, logs "max retries reached for event process. aborting" and
  rethrows. That bookkeeping only makes sense if an attempt that returns
  ends the loop. But the `while (true)` has no exit after a normal
  return: it tries the event again until an attempt fails for the
  (N+1)-th time. `JbossDeployer.ProcessEvent` models the loop as written;
  the engine uses `JbossDeployer.ProcessEventCorrected`, which returns
  after the first success. See "## Findings".
- **Discovery failures are not retried.** `getTargetFolder()` is
  evaluated as an argument of the `processEvent` call
  (`MagicHotDeployerEngine.java:160`), before the retry loop is entered.
  A failing search is therefore caught once by the surrounding `catch`,
  and the event is dropped without any retry.

## Model

| member | source | states |
|---|---|---|
| Paths.SplitJoin | src/com/ff/magicHotDeployer/engine/MagicHotDeployerEngine.java:98 | building a path from the printed form of a path with real segment names gives that path back |
| Paths.SplitRender | src/com/ff/magicHotDeployer/engine/JbossDeployer.java:75-79 | a path printed with `toAbsolutePath().toString()` and parsed again is the same path |
| Paths.SplitIsValid | src/com/ff/magicHotDeployer/engine/MagicHotDeployerEngine.java:98 | any string yields a path whose segments are non-empty and contain no separator |
| Paths.SplitNormalises | src/com/ff/magicHotDeployer/engine/JbossDeployer.java:72 | `Paths.get` of a path's own text is the same path: separators are normalised once and for all |
| Integers.Increment | src/com/ff/magicHotDeployer/configuration/ConfigurationProvider.java:124 | `instanceIndex++` is adding one modulo 2^32: the result stays a 32-bit int, and the maximum wraps to the minimum |
| Integers.ParsePrinted | src/com/ff/magicHotDeployer/configuration/ConfigurationProvider.java:135 | `Integer.valueOf` of what Java prints for an int gives that int back |
| Integers.PrintedIsInjective | src/com/ff/magicHotDeployer/configuration/ConfigurationProvider.java:124 | distinct counter values give distinct automatic instance names |
| FileSystems.CopyEffect | src/com/ff/magicHotDeployer/engine/JbossDeployer.java:164 | after a successful copy, the destination holds the source's content, its parents are directories, and no other existing path changed |
| FileSystems.CopyFailsIff | src/com/ff/magicHotDeployer/engine/JbossDeployer.java:164 | the copy fails exactly when the source is not a regular file, is the destination, or the destination or a parent is in the way |
| FileSystems.DeleteTreeEffect | src/com/ff/magicHotDeployer/engine/JbossDeployer.java:184 | deleting a directory removes everything at and below it and keeps the rest; a missing path changes nothing |
| FileSystems.DeleteFileEffect | src/com/ff/magicHotDeployer/engine/JbossDeployer.java:174 | deleting a regular file removes exactly that file |
| FileSystems.SubdirectoryNamed | src/com/ff/magicHotDeployer/engine/JbossDeployer.java:212-217 | a name listed under the `deployment` filter is a directory right below the listed folder, and its name starts with the prefix |
| FileSystems.SubdirectoryNamesByPrefix | src/com/ff/magicHotDeployer/engine/JbossDeployer.java:235-250 | the sub-directories starting with a prefix are exactly those of the full listing that start with it |
| FileSystems.FileSystem.CopyFile | src/com/ff/magicHotDeployer/engine/JbossDeployer.java:164 | the disk becomes the copy's result, or stays unchanged and the copy's exception is raised |
| FileSystems.FileSystem.DeleteFile | src/com/ff/magicHotDeployer/engine/JbossDeployer.java:174 | the disk becomes the result of `File.delete`, which removes a file or an empty directory and otherwise does nothing |
| FileSystems.FileSystem.DeleteDirectory | src/com/ff/magicHotDeployer/engine/JbossDeployer.java:184 | the disk becomes the result of deleting the tree, or stays unchanged when that throws |
| FileSystems.FileSystem.ListSubdirectories | src/com/ff/magicHotDeployer/engine/JbossDeployer.java:212-217 | a listing exists exactly for a directory, and it names each sub-directory matching the prefix exactly once |
| Logging.LevelFromCode | src/com/ff/magicHotDeployer/logging/Logger.java:31-42 | a level is found exactly for the seven accepted codes, and null is returned for any other |
| Logging.CodesAreDistinct | src/com/ff/magicHotDeployer/logging/Logger.java:31-42 | different codes give different levels |
| Logging.SeverityOrder | src/com/ff/magicHotDeployer/logging/Logger.java:12-16 | error > warn > info > debug > trace, so a filter that lets a level through lets every more severe level through |
| Logging.FilterExtremes | src/com/ff/magicHotDeployer/logging/Logger.java:18-19 | the shut-up filter blocks every message level, and the every-single-shit filter passes every message level |
| Logging.Logger.constructor | src/com/ff/magicHotDeployer/logging/Logger.java:21 | the initial filter is debug: debug passes, trace does not |
| Logging.Logger.SetFilterLevel | src/com/ff/magicHotDeployer/logging/Logger.java:121-127 | the filter read back is the one set |
| Logging.Logger.Log | src/com/ff/magicHotDeployer/logging/Logger.java:44-45 | a line is written exactly when its priority is at least the filter's |
| Configuration.LookupIsLayered | src/com/ff/magicHotDeployer/configuration/ConfigurationProvider.java:96-107 | a setting comes from the first of command line, instance section, fallback section that has the key |
| Configuration.LookupEdges | src/com/ff/magicHotDeployer/configuration/ConfigurationProvider.java:96-107 | the command line always wins; with no instance section, the default is returned and the fallback is ignored; a key found nowhere is absent |
| Configuration.EmptyAsNull | src/com/ff/magicHotDeployer/configuration/ConfigurationProvider.java:120-121 | an empty value counts as unset, and any other value is kept |
| Configuration.IntSetting | src/com/ff/magicHotDeployer/configuration/ConfigurationProvider.java:129-145 | an unset or empty number takes its default; otherwise it is `Integer.valueOf` of the text, or an error naming the key and text |
| Configuration.IntSettingReadsPrinted | src/com/ff/magicHotDeployer/configuration/ConfigurationProvider.java:135 | a number written as Java prints it is read back as that number |
| Configuration.RecursiveSpellings | src/com/ff/magicHotDeployer/configuration/ConfigurationProvider.java:155-165 | an explicit `recursive` value turns recursion on exactly for "true" in any letter case |
| Configuration.ReloadErrorCases | src/com/ff/magicHotDeployer/configuration/ConfigurationProvider.java:109-173 | a missing source is always the error reported; a reload fails exactly when the source is missing, a number is malformed, the filter does not compile, or the log level is unknown |
| Configuration.NameCounter.constructor | src/com/ff/magicHotDeployer/configuration/ConfigurationProvider.java:43 | instance numbering starts at 0 |
| Configuration.ConfigurationProvider.constructor | src/com/ff/magicHotDeployer/configuration/ConfigurationProvider.java:49-74 | a new configuration keeps its three sources, has every setting unset and is recursive |
| Configuration.ConfigurationProvider.Reload | src/com/ff/magicHotDeployer/configuration/ConfigurationProvider.java:109-189 | throws exactly the first failing check's error; a missing source leaves every other setting, the counter and the logger as they were; unnamed instances take the next number; a success reads every setting from the sources and sets the log filter |
| Configuration.ConfigurationProvider.ReadLocations | src/com/ff/magicHotDeployer/configuration/ConfigurationProvider.java:113-127 | the location settings hold what the sources say, normalised, and the name is given or numbered |
| Configuration.ConfigurationProvider.ReadTuning | src/com/ff/magicHotDeployer/configuration/ConfigurationProvider.java:129-173 | the numbers, filter, mode, `recursive` and log level are read in order; a failure is the first check that fails |
| Configuration.Jboss4AfterReload | src/com/ff/magicHotDeployer/configuration/ConfigurationProvider.java:233-235 | after a reload, JBoss 4 mode is on exactly when `deployMode` reads "jboss4", and letter case matters |
| Watching.WatchService.constructor | src/com/ff/magicHotDeployer/engine/MagicHotDeployerEngine.java:96 | a new watch service has no registrations |
| Watching.WatchService.Register | src/com/ff/magicHotDeployer/engine/MagicHotDeployerEngine.java:46 | a missing path or a file cannot be registered; an already registered directory keeps its key; a new directory gets a fresh key |
| Watching.WatchService.Reset | src/com/ff/magicHotDeployer/engine/MagicHotDeployerEngine.java:169-171 | re-arming reports whether the key is still valid, and an invalid key's registration is cancelled |
| JbossDeployer.ReflectUnder | src/com/ff/magicHotDeployer/engine/JbossDeployer.java:188-203 | a path `sourceBase/r` is reflected to `targetBase/r` |
| JbossDeployer.ReflectBase | src/com/ff/magicHotDeployer/engine/JbossDeployer.java:188-203 | the source root is reflected to the target root |
| JbossDeployer.ReflectLandsUnderTarget | src/com/ff/magicHotDeployer/engine/JbossDeployer.java:188-203 | every reflected path lies under the target root, even one from outside the source root |
| JbossDeployer.ReflectRoundTrip | src/com/ff/magicHotDeployer/engine/JbossDeployer.java:188-203 | reflecting back from target to source recovers every path under the source root |
| JbossDeployer.ReflectInjective | src/com/ff/magicHotDeployer/engine/JbossDeployer.java:188-203 | different source paths never share a target path |
| JbossDeployer.EffectiveTarget | src/com/ff/magicHotDeployer/engine/JbossDeployer.java:71-73 | the effective target lies under the base target and equals it when the inner path is unset or empty |
| JbossDeployer.IsFolderCases | src/com/ff/magicHotDeployer/engine/JbossDeployer.java:81-85 | an event is about a folder exactly when the target is a directory, or nothing is at the target and the source is a directory |
| JbossDeployer.PlanExcludesIff | src/com/ff/magicHotDeployer/engine/JbossDeployer.java:87-92 | an event is excluded exactly when it is a file, a filter is set, and the filter finds no match in the path text |
| JbossDeployer.PlanTable | src/com/ff/magicHotDeployer/engine/JbossDeployer.java:94-126 | for events that pass the filter, each action happens exactly for its kind and folder/file combination |
| JbossDeployer.DeployFileEffectSkipsOrCopies | src/com/ff/magicHotDeployer/engine/JbossDeployer.java:158-166 | a vanished source is skipped without change; a file that can be copied ends up at the target with its content |
| JbossDeployer.DeployFileTwice | src/com/ff/magicHotDeployer/engine/JbossDeployer.java:158-166 | deploying an unchanged file again changes nothing more |
| JbossDeployer.HotDeployFile | src/com/ff/magicHotDeployer/engine/JbossDeployer.java:158-166 | returns whether the source existed; the disk is the skip-or-copy effect, or unchanged when the copy throws |
| JbossDeployer.HotUndeployFile | src/com/ff/magicHotDeployer/engine/JbossDeployer.java:168-176 | returns whether the target existed, never throws, and the disk is the `File.delete` result |
| JbossDeployer.HotUndeployFolder | src/com/ff/magicHotDeployer/engine/JbossDeployer.java:178-186 | returns whether the target existed; the subtree is gone, or the disk is unchanged when the target is a file |
| JbossDeployer.HotDeployNewFolder | src/com/ff/magicHotDeployer/engine/JbossDeployer.java:131-156 | a missing folder throws `NoSuchFile` and changes nothing; any other failure is the error of copying some file of the folder to its reflected path on the disk left behind; nothing is removed, nothing outside the target changes, and every new or changed entry is the reflected path of a file of the folder or a directory created above one; a completed walk with disjoint roots puts every file of the folder at its reflected path |
| JbossDeployer.TrySingleProcessEvent | src/com/ff/magicHotDeployer/engine/JbossDeployer.java:62-129 | the attempt's effect on the disk is `AttemptEffect` of the action the event's kind, file/folder test and filter choose: excluded, unsupported and folder-modify events change nothing; a file copy, file delete or folder delete succeeds exactly when that action can be done and then has its effect, and otherwise leaves the disk unchanged; a folder deploy fails at once on a missing folder, and otherwise may stop part-way with its earlier copies kept, a failure meaning some file's copy fails, and a finished one places the files' contents when the roots are disjoint; excluded and unsupported events report false, others true; a file action's failure carries that action's error |
| JbossDeployer.RetryCharacterized | src/com/ff/magicHotDeployer/engine/JbossDeployer.java:34-59 | the loop is left exactly on the failure numbered maxRetries+1 (the first one for a negative delay); until then every outcome counts as an attempt |
| JbossDeployer.SuccessKeepsLooping | src/com/ff/magicHotDeployer/engine/JbossDeployer.java:36-38 | an attempt that returns never ends the loop: the next attempt follows |
| JbossDeployer.EscapesOnlyAfterRetries | src/com/ff/magicHotDeployer/engine/JbossDeployer.java:44-57 | with a non-negative delay, the failure is rethrown exactly once maxRetries+1 attempts have failed, with one sleep between consecutive failures |
| JbossDeployer.AllSuccessesNeverReturn | src/com/ff/magicHotDeployer/engine/JbossDeployer.java:36-59 | attempts that all succeed keep the loop running with no failure counted |
| JbossDeployer.AttemptUnder | src/com/ff/magicHotDeployer/engine/JbossDeployer.java:37-39 | one attempt inside the loop extends the history by its outcome and the disk after it: a faulted attempt fails without touching the disk, any other is `trySingleProcessEvent` with the effect `AttemptEffect` describes |
| JbossDeployer.ProcessEvent | src/com/ff/magicHotDeployer/engine/JbossDeployer.java:25-60 | the loop's state is `Retry` of the attempts' outcomes; the disk goes through one tree per attempt, `History` linking each pair of trees by `Attempted` (a faulted attempt fails and changes nothing, any other has `TrySingleProcessEvent`'s effect); it sleeps once after each failure the loop survives; the attempts made are exactly the ones the state counts, so none follows the rethrow; a loop still running has used the whole fault schedule |
| JbossDeployer.IntendedAgreesUntilSuccess | src/com/ff/magicHotDeployer/engine/JbossDeployer.java:36-59 | the corrected loop handles failures exactly as the written one does, and returns on the first success that the written loop ignores |
| JbossDeployer.ProcessEventCorrected | src/com/ff/magicHotDeployer/engine/JbossDeployer.java:25-60 | the corrected loop's state is `RetryIntended` of the attempts' outcomes; `History` links the trees before and after each attempt by `Attempted`; it sleeps once between consecutive failed attempts; the attempts made are exactly the ones the state counts, so none follows the return or the throw; a loop still trying has used the whole fault schedule |
| JbossDeployer.WrittenAttemptsAllReached | src/com/ff/magicHotDeployer/engine/JbossDeployer.java:36-59 | when the written loop's count of attempts equals the outcomes given, the loop was still running before each of them: no attempt follows the rethrow |
| JbossDeployer.IntendedAttemptsAllReached | src/com/ff/magicHotDeployer/engine/JbossDeployer.java:36-59 | when the corrected loop's count of attempts equals the outcomes given, the loop was still trying before each of them, and every outcome but the last is a failure: nothing is attempted after the return or the throw |
| JbossDeployer.HistoryEach | src/com/ff/magicHotDeployer/engine/JbossDeployer.java:36-59 | a history of the retry loop is, attempt by attempt, the disk before and after each attempt related by the attempt's step |
| JbossDeployer.IntendedFailuresOnly | src/com/ff/magicHotDeployer/engine/JbossDeployer.java:36-59 | with an exit on success, k failures leave the loop trying while k ≤ maxRetries, and otherwise throw on attempt maxRetries+1 |
| JbossDeployer.IntendedRetryBound | src/com/ff/magicHotDeployer/engine/JbossDeployer.java:36-59 | with an exit on success, an action that fails k times and then succeeds returns after k+1 attempts iff k ≤ n; otherwise it throws after n+1 |
| JbossDeployer.WrittenRetryIgnoresSuccess | src/com/ff/magicHotDeployer/engine/JbossDeployer.java:36-59 | as written, one successful attempt leaves the loop running, where the intended loop returns |
| JbossDeployer.PickMostRecentDeploymentFolder | src/com/ff/magicHotDeployer/engine/JbossDeployer.java:260-288 | null exactly for an empty listing; otherwise the first listed folder with the latest creation time |
| JbossDeployer.ChooseDeploymentFolder | src/com/ff/magicHotDeployer/engine/JbossDeployer.java:221-230 | the chosen deployment folder is one that no other was created after |
| JbossDeployer.FindPackage | src/com/ff/magicHotDeployer/engine/JbossDeployer.java:235-250 | the package found is a sub-directory starting with the prefix; none is found exactly when no such sub-directory exists |
| JbossDeployer.FindDeploymentPath | src/com/ff/magicHotDeployer/engine/JbossDeployer.java:205-258 | each error is reported exactly when its cause holds: no home; no deployment directory; no deployment folder in it; with a deployment folder present, a success or a package error, the latter only for a latest deployment folder that has no matching sub-directory (or, with no prefix, any sub-directory); a success is a package folder inside a latest deployment folder |
| Engine.MagicHotDeployerEngine.constructor | src/com/ff/magicHotDeployer/engine/MagicHotDeployerEngine.java:32-43 | the engine starts with no keys, no cached target, a zero counter, and the configuration's settings |
| Engine.MagicHotDeployerEngine.RegisterFolder | src/com/ff/magicHotDeployer/engine/MagicHotDeployerEngine.java:45-49 | registration succeeds exactly for a directory, which joins the watched set; every earlier key is kept |
| Engine.MagicHotDeployerEngine.RegisterAllFolders | src/com/ff/magicHotDeployer/engine/MagicHotDeployerEngine.java:51-61 | a missing start throws; a directory start adds every directory of its subtree to the watched set; a file start adds none |
| Engine.MagicHotDeployerEngine.GetTargetFolder | src/com/ff/magicHotDeployer/engine/MagicHotDeployerEngine.java:68-93 | a cached target that still exists is reused; otherwise the cache is refilled from the fixed target or by discovery, whose result is a deployed package; a failed discovery empties the cache and its error has its cause on the disk; the call succeeds exactly when the cache ends filled, and returns what it holds |
| Engine.MagicHotDeployerEngine.HandleEvent | src/com/ff/magicHotDeployer/engine/MagicHotDeployerEngine.java:124-166 | overflow changes nothing; other events are counted, a created directory adds exactly its subtree's directories to the watched set in recursive mode, the target cache ends as `getTargetFolder` leaves it, and with a target found the event goes through the corrected retry loop, each attempt changing the disk as `Attempted` says for that target and no attempt made after the loop returns or throws; with no target the disk is unchanged |
| Engine.MagicHotDeployerEngine.MirrorEvent | src/com/ff/magicHotDeployer/engine/MagicHotDeployerEngine.java:159-164 | the target is looked up with the disk as it is, and the event is then processed on it through the corrected retry loop, as `Handled` states: every attempt made changes the disk as `Attempted` says, and the attempts stop at the loop's return or throw |
| Engine.MagicHotDeployerEngine.HandledStopsAtSuccess | src/com/ff/magicHotDeployer/engine/MagicHotDeployerEngine.java:159-164 | within a handled event the retry loop was still trying before each attempt made, so every attempt but the last failed and nothing runs after the first success |
| Engine.MagicHotDeployerEngine.HandleEvents | src/com/ff/magicHotDeployer/engine/MagicHotDeployerEngine.java:124-166 | the events are handled in order, each step as `Handled` states (its attempts ending at its retry loop's return or throw), from the cache and disk the previous one left, until one is stuck; the counter grows by the non-overflow events handled, and the watched set by the subtrees of the directories created in recursive mode |
| Engine.MagicHotDeployerEngine.TracedHandled | src/com/ff/magicHotDeployer/engine/MagicHotDeployerEngine.java:124-166 | a trace of a batch gives, for each event handled, the cache and disk before and after it related by `Handled`, only the last being stuck |
| Engine.MagicHotDeployerEngine.ProcessBatch | src/com/ff/magicHotDeployer/engine/MagicHotDeployerEngine.java:118-176 | an unknown key is skipped and changes nothing; otherwise the events go through `HandleEvents` for the key's directory, so cache and disk follow the per-event trace, each event's attempts ending at its retry loop's return or throw, the counter grows by the non-overflow events handled and the watched set by the subtrees created in recursive mode, staying within that when a failed reset drops the key's directory; a failed reset drops the key, and the loop stops exactly when no key is left |
| Engine.MagicHotDeployerEngine.Start | src/com/ff/magicHotDeployer/engine/MagicHotDeployerEngine.java:98-105 | the whole source tree is watched in recursive mode and the source folder alone otherwise; the start fails exactly when the source cannot be registered |
| Engine.MagicHotDeployerEngine.Run | src/com/ff/magicHotDeployer/engine/MagicHotDeployerEngine.java:95-178 | the start fails exactly when the source is missing (or is not a directory, when not recursive); the loop stops only after a batch whose reset failed left no key, and a batch that leaves no key stops it: waiting with nothing watched means a recursive start found a regular file |
| Engine.WatchedOnce | src/com/ff/magicHotDeployer/engine/MagicHotDeployerEngine.java:45-47 | no directory is recorded under two keys |
| EngineLoader.EverySectionCounted | src/com/ff/magicHotDeployer/engine/EngineLoader.java:42-50 | every section is either a fallback or exactly one instance |
| EngineLoader.InstanceSectionsAppend | src/com/ff/magicHotDeployer/engine/EngineLoader.java:42-50 | instances keep the file's order: the instances of two concatenated parts are the concatenated instances |
| EngineLoader.PartitionSections | src/com/ff/magicHotDeployer/engine/EngineLoader.java:41-51 | the instances are the non-fallback sections in order; the fallback is unset iff no section has a fallback name, and otherwise it is the last such section |
| EngineLoader.FallbackIsLast | src/com/ff/magicHotDeployer/engine/EngineLoader.java:44-46 | the fallback the loop keeps is the last section with a fallback name |
| EngineLoader.FilterUnset | src/com/ff/magicHotDeployer/configuration/ConfigurationProvider.java:167-173 | when no instance sets a log level, the process-wide filter stays as it was |
| EngineLoader.FilterIsLastSet | src/com/ff/magicHotDeployer/configuration/ConfigurationProvider.java:167-173 | otherwise the filter is the level of the last instance, in file order, that sets one |
| EngineLoader.IndexCountsUnnamed | src/com/ff/magicHotDeployer/configuration/ConfigurationProvider.java:123-124 | away from the 32-bit wrap-around, the counter advances by exactly the number of unnamed instances |
| EngineLoader.UnnamedMonotone | src/com/ff/magicHotDeployer/configuration/ConfigurationProvider.java:123-124 | more instances never have fewer unnamed ones among them |
| EngineLoader.UnnamedNamesDistinct | src/com/ff/magicHotDeployer/configuration/ConfigurationProvider.java:123-124 | two unnamed instances get increasing numbers and so different names, `I0`, `I1`, … in file order |
| EngineLoader.ConfigureOne | src/com/ff/magicHotDeployer/engine/EngineLoader.java:57-67 | a fresh configuration over one section is returned reloaded and named from its `name` setting or the counter; the reload's error is raised otherwise; a missing source leaves counter and filter alone, else an unnamed instance advances the counter; a success sets the process-wide filter when the section gives a level |
| EngineLoader.ConfigureInstances | src/com/ff/magicHotDeployer/engine/EngineLoader.java:53-73 | one configured instance per section, in order, all with the same command line and fallback, the unnamed ones numbered in order from the counter; the counter ends advanced by the unnamed instances and the filter is the last level set; otherwise the error of the first section that fails |
| EngineLoader.ConfigureNext | src/com/ff/magicHotDeployer/engine/EngineLoader.java:55-71 | one turn of the loop appends the next configured instance and moves the counter and the filter on from the earlier turns, or raises that section's reload error |
| EngineLoader.LoadEngines | src/com/ff/magicHotDeployer/engine/EngineLoader.java:21-74 | no ini file gives no instances and changes nothing; otherwise one configured instance per non-fallback section, named and numbered in order, with the counter and the log filter as the reloads leave them; the load fails iff some section's reload fails |
| Runner.AnyAlive | src/com/ff/magicHotDeployer/MagicHotDeployerRunner.java:112-119 | the flag is set iff some instance is alive, and the scan stops at the first live one |
| Runner.Supervise | src/com/ff/magicHotDeployer/MagicHotDeployerRunner.java:105-125 | the process exits at the first poll with no live instance, and keeps polling while one is alive |
| Runner.Run | src/com/ff/magicHotDeployer/MagicHotDeployerRunner.java:34-125 | the log filter is opened first; a bad command line or any failing section aborts before any start; the configuration is rejected exactly when some instance section fails to reload; otherwise every configured instance, named in order, is started and supervised, the counter is advanced by the unnamed ones, and the filter is the level of the last section that sets one, or still fully open |

## Left out

- Console output, colours and the log lock are left out. Of the logger, only the level gate and the filter level are modelled.
- Threads are left out. `RunnableEngineInstance` only wraps an engine in a thread. Instances are modelled one at a time, and liveness is an input to the runner.
- `Thread.sleep` durations are not modelled. Neither are the 250 ms poll interval, `InterruptedException` or `System.exit`.
- Command-line and ini parsing (Commons CLI, ini4j) are left out. The command line is a map from option names to values, so the set of options the parser accepts is not modelled. A malformed ini file and duplicate section names are not modelled.
- `UpdateChecker` is not part of this model. It is an HTTP fetch and a console message.
- Regular expressions are opaque: the `RegexEngine` parameter decides compilation and `find`.
- Paths are not normalised. The model keeps segments as given: no `.`/`..` resolution and no symbolic links, so `NOFOLLOW_LINKS` is moot. There is no relative `jbossHome` or working directory, and no `URI.create` syntax errors.
- The walk in `hotDeployNewFolder` and `registerAllFolders` visits a snapshot of the tree taken at its start, in a chosen order. The model does not capture changes made by another process during the walk.
- Engine.MagicHotDeployerEngine.constructor: copies the configuration's values. The Java engine reads them live, but nothing changes a configuration after its reload.
- Engine.MagicHotDeployerEngine.HandleEvent: uses the corrected retry loop rather than the one written (see "## Findings").
- Engine.MagicHotDeployerEngine.Run: states how the loop ends, not the disk, cache, keys and counter after each batch. Each batch's effect on them is `ProcessBatch`'s contract; the run does not compose those traces across batches.
- The engine's `Long` event counter is unbounded here, because 2^63 events cannot occur.
- JbossDeployer.ProcessEvent: the attempt counter's 32-bit wrap-around after 2^31 failures is not modelled. The sleep is a ghost counter; its duration is not.
- JbossDeployer.ProcessEventCorrected: the same limits as `ProcessEvent`.
- JbossDeployer.AttemptUnder: a faulted attempt is modelled as failing before it touches the disk, so faults are all-or-nothing. In the program a locked file or a full disk can fail an action part-way: `FileUtils.deleteDirectory` removes the other entries before it throws on a locked one, a full disk can leave a truncated copy, and the walk of `hotDeployNewFolder` keeps the copies made before a failing one. The model does not capture these partial effects of a fault. Neither do `ProcessEvent`, `ProcessEventCorrected` and the engine's `Handled`, which build on it. The partial effects of a failure that is not a fault are modelled (`HotDeployNewFolder`).
- JbossDeployer.HotDeployNewFolder: states the files' contents at their reflected paths only when the source and target roots are disjoint. Otherwise a copy may overwrite a file the walk has yet to visit.
- The `try`/`catch` around resolving the changed file's path in the engine is not modelled: resolving a file name against a directory cannot fail here.
- Configuration.ConfigurationProvider.Reload: case-insensitive comparison and integer parsing cover ASCII text only. None of `reload`'s debug lines is modelled: not the `recursive` lines, not "changing logLevel" (written even when the level is unknown and the reload then throws), and not the summary. The model's logger keeps its lines as they were.
- Runner.Run: the threads it starts are represented by their configurations. The runner's own copy of the partitioning and configuring loops is the same code as the loader's, modelled once in `EngineLoader`.

## Findings

| source | as written | input that shows it | evidently intended | confidence | as-written member | corrected member |
|---|---|---|---|---|---|---|
| src/com/ff/magicHotDeployer/engine/JbossDeployer.java:36-59 | `while (true)` has no exit after an attempt that returns, so a successful event is processed again and again. The call returns only by throwing, once maxRetries+1 attempts have failed. | one attempt that succeeds, with the default maxRetries = 3 and retryDelay = 100: the loop is still running after it | return after the first successful attempt: an action that fails k times and then succeeds returns after k+1 attempts iff k ≤ maxRetries, and otherwise throws after maxRetries+1 | not executed | JbossDeployer.WrittenRetryIgnoresSuccess (on JbossDeployer.Retry and JbossDeployer.ProcessEvent) | JbossDeployer.IntendedRetryBound (on JbossDeployer.RetryIntended and JbossDeployer.ProcessEventCorrected, which the engine uses) |
