/**
 * `MagicHotDeployerEngine`: one watch instance. It registers the source tree
 * with the watch service, then takes batches of notifications one at a
 * time, mirrors each event onto the deployment target through the retry
 * loop, and re-arms the batch's key; it stops when the last watched
 * directory has become inaccessible. The retry loop used is
 * `JbossDeployer.ProcessEventCorrected`, which returns after the first
 * attempt that succeeds; the loop as written never does.
 */
module Engine {
  import opened Wrappers
  import opened Paths
  import opened FileSystems
  import opened Watching
  import opened Configuration
  import opened JbossDeployer

  /** How `run()` ends, or where it is when the input runs out. */
  datatype RunOutcome =
    | StartFailed(error: IoError)  // the initial registration threw
    | Stopped(batchesTaken: nat)   // a failed reset left no directory watched
    | Waiting                      // every batch handled; `take()` blocks
    | Stuck(batchesTaken: nat)     // the fault schedule of an event ran out while it was being retried

  /** The events of a batch that are counted: all but OVERFLOW. */
  function CountedEvents(events: seq<WatchEvent>): nat
    decreases |events|
  {
    if events == [] then 0
    else CountedEvents(events[..|events| - 1]) + (if events[|events| - 1].kind == Overflow then 0 else 1)
  }

  lemma CountedNext(events: seq<WatchEvent>, i: nat)
    requires i < |events|
    ensures CountedEvents(events[..i + 1]) == CountedEvents(events[..i]) + CountedEvents([events[i]])
  {
    assert events[..i + 1][..i] == events[..i];
    assert [events[i]][..0] == [];
  }

  ghost function DirectoriesOf(keys: map<Key, Path>): set<Path> {
    set k | k in keys :: keys[k]
  }

  /** Recording a key for a directory adds that directory and loses none,
      as long as the key did not stand for another directory. */
  lemma PutValue(keys: map<Key, Path>, k: Key, folder: Path)
    requires k in keys ==> keys[k] == folder
    ensures DirectoriesOf(keys[k := folder]) == DirectoriesOf(keys) + {folder}
  {
    var keys' := keys[k := folder];
    forall p ensures p in DirectoriesOf(keys') <==> p in DirectoriesOf(keys) || p == folder {
      if p in DirectoriesOf(keys) {
        var k' :| k' in keys && keys[k'] == p;
        assert keys'[k'] == p;
      }
      if p in DirectoriesOf(keys') && p != folder {
        var k' :| k' in keys' && keys'[k'] == p;
        assert keys[k'] == p;
      }
      if p == folder {
        assert keys'[k] == p;
      }
    }
  }

  /** A relation between an event, the target cache and the disk before and
      after it, the outcomes of its attempts, the disks between them, and
      whether its retry loop had not returned. */
  type EventStep = (WatchEvent, Option<Path>, Option<Path>, Tree, Tree, seq<bool>, seq<Tree>, bool) -> bool

  /** The first `k` events are each related by `step`, none of them stuck:
      `caches[j]` and `disks[j]` are the target cache and the disk before
      event j. */
  ghost predicate EventsUpTo(step: EventStep, events: seq<WatchEvent>, caches: seq<Option<Path>>, disks: seq<Tree>,
                             attempts: seq<seq<bool>>, trees: seq<seq<Tree>>, k: nat)
    requires k <= |attempts| <= |events| && |caches| == |disks| == |attempts| + 1 && |trees| == |attempts|
    decreases k
  {
    k == 0 ||
    (EventsUpTo(step, events, caches, disks, attempts, trees, k - 1) &&
     step(events[k - 1], caches[k - 1], caches[k], disks[k - 1], disks[k], attempts[k - 1], trees[k - 1], false))
  }

  /** The trace of a run of events: every event is handled unless one is
      stuck, and then that one is the last. */
  ghost predicate Traced(step: EventStep, events: seq<WatchEvent>, caches: seq<Option<Path>>, disks: seq<Tree>,
                         attempts: seq<seq<bool>>, trees: seq<seq<Tree>>, stuck: bool)
  {
    && |attempts| <= |events| && |caches| == |disks| == |attempts| + 1 && |trees| == |attempts|
    && if stuck then
         var n := |attempts| - 1;
         n >= 0 && EventsUpTo(step, events, caches, disks, attempts, trees, n) &&
         step(events[n], caches[n], caches[n + 1], disks[n], disks[n + 1], attempts[n], trees[n], true)
       else
         |attempts| == |events| && EventsUpTo(step, events, caches, disks, attempts, trees, |attempts|)
  }

  lemma {:induction false} EventsAppend(step: EventStep, events: seq<WatchEvent>, caches: seq<Option<Path>>, disks: seq<Tree>,
                                        attempts: seq<seq<bool>>, trees: seq<seq<Tree>>,
                                        c: Option<Path>, d: Tree, a: seq<bool>, tr: seq<Tree>, k: nat)
    requires k <= |attempts| < |events| && |caches| == |disks| == |attempts| + 1 && |trees| == |attempts|
    requires EventsUpTo(step, events, caches, disks, attempts, trees, k)
    ensures EventsUpTo(step, events, caches + [c], disks + [d], attempts + [a], trees + [tr], k)
    decreases k
  {
    if k > 0 {
      EventsAppend(step, events, caches, disks, attempts, trees, c, d, a, tr, k - 1);
      assert (caches + [c])[k - 1] == caches[k - 1] && (caches + [c])[k] == caches[k];
      assert (disks + [d])[k - 1] == disks[k - 1] && (disks + [d])[k] == disks[k];
      assert (attempts + [a])[k - 1] == attempts[k - 1] && (trees + [tr])[k - 1] == trees[k - 1];
    }
  }

  lemma {:induction false} EventsEach(step: EventStep, events: seq<WatchEvent>, caches: seq<Option<Path>>, disks: seq<Tree>,
                                      attempts: seq<seq<bool>>, trees: seq<seq<Tree>>, k: nat)
    requires k <= |attempts| <= |events| && |caches| == |disks| == |attempts| + 1 && |trees| == |attempts|
    requires EventsUpTo(step, events, caches, disks, attempts, trees, k)
    ensures forall j :: 0 <= j < k ==>
      step(events[j], caches[j], caches[j + 1], disks[j], disks[j + 1], attempts[j], trees[j], false)
    decreases k
  {
    if k > 0 {
      EventsEach(step, events, caches, disks, attempts, trees, k - 1);
    }
  }

  /** Dropping a key loses no directory but the one it stood for. */
  lemma RemoveKey(keys: map<Key, Path>, k: Key)
    ensures DirectoriesOf(keys - {k}) <= DirectoriesOf(keys)
  {
    forall p | p in DirectoriesOf(keys - {k}) ensures p in DirectoriesOf(keys) {
      var k' :| k' in keys - {k} && (keys - {k})[k'] == p;
      assert keys[k'] == p;
    }
  }

  class MagicHotDeployerEngine {
    const fs: FileSystem
    const regex: RegexEngine

    // the settings the engine reads from its configuration
    const sourceFolder: string
    const recursive: bool
    const targetInnerPath: Option<string>
    const fixedTarget: Option<string>
    const jbossHome: Option<string>
    const packagePrefix: Option<string>
    const filterPattern: Option<string>
    const maxRetries: int
    const retryDelay: int

    var watcher: WatchService
    /** The directory each registered key watches. */
    var keys: map<Key, Path>
    /** The cached deployment target. */
    var targetFolder: Option<Path>
    var counter: nat

    /** Each key in `keys` is the watch service's key for its directory, so
        no directory is watched under two keys. */
    ghost predicate Valid()
      reads this, watcher
    {
      && watcher.Valid()
      && forall k :: k in keys ==> keys[k] in watcher.registrations && watcher.registrations[keys[k]] == k
    }

    /** The directories being watched. */
    ghost function Watched(): set<Path>
      reads this
    {
      DirectoriesOf(keys)
    }

    constructor (cfg: ConfigurationProvider, fs: FileSystem, regex: RegexEngine)
      requires cfg.sourceFolder.Some? && cfg.maxRetries.Some? && cfg.retryDelay.Some?
      ensures Valid() && fresh(watcher)
      ensures keys == map[] && targetFolder == None && counter == 0
      ensures this.fs == fs && this.regex == regex
      ensures sourceFolder == cfg.sourceFolder.value && recursive == cfg.recursive
      ensures targetInnerPath == cfg.deployedSubpath && fixedTarget == cfg.fixedTarget
      ensures jbossHome == cfg.jbossHome && packagePrefix == cfg.packagePrefix
      ensures filterPattern == cfg.filterPattern
      ensures maxRetries == cfg.maxRetries.value && retryDelay == cfg.retryDelay.value
    {
      this.fs := fs;
      this.regex := regex;
      sourceFolder := cfg.sourceFolder.value;
      recursive := cfg.recursive;
      targetInnerPath := cfg.deployedSubpath;
      fixedTarget := cfg.fixedTarget;
      jbossHome := cfg.jbossHome;
      packagePrefix := cfg.packagePrefix;
      filterPattern := cfg.filterPattern;
      maxRetries := cfg.maxRetries.value;
      retryDelay := cfg.retryDelay.value;
      watcher := new WatchService();
      keys := map[];
      targetFolder := None;
      counter := 0;
    }

    /** `Paths.get(URI.create("file:///" + source))`. */
    function SourcePath(): Path {
      Split(sourceFolder)
    }

    /** `registerFolder`: registers one directory and records its key; what
        was recorded before stays. */
    method RegisterFolder(folder: Path) returns (r: Outcome<IoError>)
      requires Valid()
      modifies this`keys, watcher
      ensures Valid()
      ensures r.Pass? <==> IsDirectory(fs.tree, folder)
      ensures r.Fail? ==> keys == old(keys) && unchanged(watcher)
      ensures r.Pass? ==> Watched() == old(Watched()) + {folder}
      ensures forall k :: k in old(keys) ==> k in keys && keys[k] == old(keys)[k]
    {
      var key := watcher.Register(fs.tree, folder);
      match key
      case Failure(e) =>
        r := Fail(e);
      case Success(k) =>
        assert k in keys ==> keys[k] == folder;
        keys := keys[k := folder];
        r := Pass;
        PutValue(old(keys), k, folder);
    }

    /** `registerAllFolders`: the walk from `start` registers every directory
        it enters; a regular file has none, and a missing start makes the
        walk throw. */
    method RegisterAllFolders(start: Path) returns (r: Outcome<IoError>)
      requires Valid()
      modifies this`keys, watcher
      ensures Valid()
      ensures start !in fs.tree ==> r == Fail(NoSuchFile(start)) && keys == old(keys) && unchanged(watcher)
      ensures start in fs.tree ==> r == Pass
      ensures IsDirectory(fs.tree, start) ==> Watched() == old(Watched()) + DirsUnder(fs.tree, start)
      ensures IsRegularFile(fs.tree, start) ==> keys == old(keys)
      ensures forall k :: k in old(keys) ==> k in keys && keys[k] == old(keys)[k]
    {
      if start !in fs.tree {
        return Fail(NoSuchFile(start));
      }
      if fs.tree[start].File? {
        return Pass;
      }
      var pending := DirsUnder(fs.tree, start);
      ghost var done: set<Path> := {};
      ghost var keys0 := keys;
      while pending != {}
        invariant Valid()
        invariant pending + done == DirsUnder(fs.tree, start) && pending !! done
        invariant Watched() == old(Watched()) + done
        invariant forall k :: k in keys0 ==> k in keys && keys[k] == keys0[k]
        decreases pending
      {
        var dir :| dir in pending;
        var registered := RegisterFolder(dir);
        pending := pending - {dir};
        done := done + {dir};
      }
      r := Pass;
    }

    /** The cache `getTargetFolder` leaves, from the cache `before` on the
        disk `t`: the cached folder while it exists; otherwise the fixed
        target; otherwise a discovered package, or nothing. */
    ghost predicate TargetRefreshed(before: Option<Path>, t: Tree, after: Option<Path>) {
      if before.Some? && before.value in t then after == before
      else if fixedTarget.Some? then after == Some(Split(fixedTarget.value))
      else after.Some? ==>
        jbossHome.Some? && packagePrefix.Some? &&
        IsDeployedPackage(t, fs.created, DeploymentBase(jbossHome.value), packagePrefix.value, after.value)
    }

    /** `getTargetFolder`: the cached folder while it still exists; otherwise
        the cache is dropped and refilled from the fixed target or, without
        one, by discovery, which may fail and leave it empty. */
    method GetTargetFolder() returns (r: Result<Path, DiscoveryError>)
      modifies this`targetFolder
      ensures old(targetFolder).Some? && old(targetFolder).value in fs.tree ==>
        r == Success(old(targetFolder).value) && targetFolder == old(targetFolder)
      ensures !(old(targetFolder).Some? && old(targetFolder).value in fs.tree) && fixedTarget.Some? ==>
        r == Success(Split(fixedTarget.value)) && targetFolder == Some(Split(fixedTarget.value))
      ensures !(old(targetFolder).Some? && old(targetFolder).value in fs.tree) && fixedTarget.None? ==>
        && (r.Success? ==> targetFolder == Some(r.value) && jbossHome.Some? && packagePrefix.Some? &&
                           IsDeployedPackage(fs.tree, fs.created, DeploymentBase(jbossHome.value), packagePrefix.value, r.value))
        && (r.Failure? ==> targetFolder == None && DiscoveryFails(fs.tree, fs.created, jbossHome, packagePrefix, r.error))
      ensures TargetRefreshed(old(targetFolder), fs.tree, targetFolder)
      ensures r.Success? <==> targetFolder.Some?
      ensures r.Success? ==> r.value == targetFolder.value
    {
      if targetFolder.Some? {
        if targetFolder.value !in fs.tree {
          targetFolder := None;
        }
      }
      if targetFolder.None? {
        if fixedTarget.Some? {
          targetFolder := Some(Split(fixedTarget.value));
        } else {
          var found := FindDeploymentPath(fs, jbossHome, packagePrefix);
          if found.Failure? {
            return Failure(found.error);
          }
          targetFolder := Some(found.value);
        }
      }
      r := Success(targetFolder.value);
    }

    /** What handling `event` from `dir` does to the target cache (`cache0`
        before, `cache` after) and to the disk (`t0` before, `t` after):
        OVERFLOW does nothing; any other event refreshes the cache and, when
        a target is found, goes through the retry loop, the disk before and
        after each attempt in `trees` and each attempt as `Attempted`
        describes it. The attempts made are the ones the loop counts, so none
        follows its return or its throw (`IntendedAttemptsAllReached`).
        `stuck` says the loop had not returned. */
    ghost predicate Handled(dir: Path, event: WatchEvent, cache0: Option<Path>, cache: Option<Path>,
                            t0: Tree, t: Tree, attempts: seq<bool>, trees: seq<Tree>, stuck: bool)
    {
      if event.kind == Overflow then !stuck && cache == cache0 && t == t0
      else
        && TargetRefreshed(cache0, t0, cache)
        && (cache.None? ==> !stuck && t == t0)
        && (cache.Some? ==>
              && |attempts| <= |event.faults|
              && (stuck <==> RetryIntended(attempts, maxRetries, retryDelay).Trying?)
              && |attempts| == RetryIntended(attempts, maxRetries, retryDelay).attempts
              && (stuck ==> |attempts| == |event.faults|)
              && |trees| == |attempts| + 1 && trees[0] == t0 && t == trees[|attempts|]
              && forall i :: 0 <= i < |attempts| ==>
                   Attempted(event.faults[i], trees[i], trees[i + 1], attempts[i], filterPattern, regex,
                             dir + [event.name], event.kind, SourcePath(), cache.value, targetInnerPath))
    }

    /** Within one handled event, the loop was still trying before each
        attempt made, so every attempt but the last failed: nothing runs after
        the event's first success. */
    lemma HandledStopsAtSuccess(dir: Path, event: WatchEvent, cache0: Option<Path>, cache: Option<Path>,
                                t0: Tree, t: Tree, attempts: seq<bool>, trees: seq<Tree>, stuck: bool)
      requires Handled(dir, event, cache0, cache, t0, t, attempts, trees, stuck)
      requires event.kind != Overflow && cache.Some?
      ensures forall k :: 0 <= k < |attempts| ==> RetryIntended(attempts[..k], maxRetries, retryDelay).Trying?
      ensures forall k :: 0 <= k < |attempts| - 1 ==> !attempts[k]
    {
      IntendedAttemptsAllReached(attempts, maxRetries, retryDelay);
    }

    /** The mirroring half of an event from `dir`: the target is looked up,
        and the event goes through the retry loop when one is found. */
    method MirrorEvent(dir: Path, event: WatchEvent) returns (stuck: bool, ghost attempts: seq<bool>, ghost trees: seq<Tree>)
      requires event.kind != Overflow
      modifies this`targetFolder, fs
      ensures Handled(dir, event, old(targetFolder), targetFolder, old(fs.tree), fs.tree, attempts, trees, stuck)
    {
      var path := dir + [event.name];
      attempts, trees := [], [fs.tree];
      var target := GetTargetFolder();
      if target.Failure? {
        return false, attempts, trees;
      }
      var state;
      ghost var sleeps;
      ghost var step := AttemptStep(filterPattern, regex, path, event.kind, SourcePath(), target.value, targetInnerPath);
      state, attempts, sleeps, trees := ProcessEventCorrected(fs, filterPattern, regex, path, event.kind, SourcePath(), target.value,
                                                              targetInnerPath, maxRetries, retryDelay, event.faults, step);
      HistoryEach(event.faults, attempts, trees, step);
      stuck := state.Trying?;
    }

    /** One event of a batch from `dir`. OVERFLOW is skipped; any other event
        is counted, a created directory is registered first in recursive mode
        (a failure to do so is only logged), and the event is processed with
        every failure caught, a failing target search included. `stuck` says
        that the retry loop has not returned: the schedule of attempts ran
        out while it was still retrying. */
    method HandleEvent(dir: Path, event: WatchEvent) returns (stuck: bool, ghost attempts: seq<bool>, ghost trees: seq<Tree>)
      requires Valid()
      modifies this`keys, this`targetFolder, this`counter, watcher, fs
      ensures Valid()
      ensures event.kind == Overflow ==> keys == old(keys) && counter == old(counter) && unchanged(watcher)
      ensures event.kind != Overflow ==> counter == old(counter) + 1
      ensures forall k :: k in old(keys) ==> k in keys && keys[k] == old(keys)[k]
      ensures recursive && event.kind == EntryCreate && IsDirectory(old(fs.tree), dir + [event.name]) ==>
        Watched() == old(Watched()) + DirsUnder(old(fs.tree), dir + [event.name])
      ensures !(recursive && event.kind == EntryCreate && IsDirectory(old(fs.tree), dir + [event.name])) ==>
        keys == old(keys)
      ensures Handled(dir, event, old(targetFolder), targetFolder, old(fs.tree), fs.tree, attempts, trees, stuck)
    {
      attempts, trees := [], [fs.tree];
      if event.kind == Overflow {
        return false, attempts, trees;
      }
      var filePath := dir + [event.name];
      counter := counter + 1;

      if recursive && event.kind == EntryCreate {
        if IsDirectory(fs.tree, filePath) {
          var _ := RegisterAllFolders(filePath);
        }
      }

      stuck, attempts, trees := MirrorEvent(dir, event);
    }

    /** The directories that handling the first `k` events from `dir` adds
        to the watched set, `disks[j]` being the disk before event j: in
        recursive mode, those at or below each created directory. */
    ghost function NewlyWatched(dir: Path, events: seq<WatchEvent>, disks: seq<Tree>, k: nat): set<Path>
      requires k <= |events| && k <= |disks|
      decreases k
    {
      if k == 0 then {}
      else
        var path := dir + [events[k - 1].name];
        NewlyWatched(dir, events, disks, k - 1) +
        (if recursive && events[k - 1].kind == EntryCreate && IsDirectory(disks[k - 1], path)
         then DirsUnder(disks[k - 1], path) else {})
    }

    lemma {:induction false} NewlyWatchedAppend(dir: Path, events: seq<WatchEvent>, disks: seq<Tree>, t: Tree, k: nat)
      requires k <= |events| && k <= |disks|
      ensures NewlyWatched(dir, events, disks + [t], k) == NewlyWatched(dir, events, disks, k)
      decreases k
    {
      if k > 0 {
        NewlyWatchedAppend(dir, events, disks, t, k - 1);
        assert (disks + [t])[k - 1] == disks[k - 1];
      }
    }

    /** The watched set after one more event, from `HandleStep`'s effect on it. */
    lemma NewlyWatchedNext(dir: Path, events: seq<WatchEvent>, disks: seq<Tree>, t: Tree, i: nat,
                           watched0: set<Path>, before: set<Path>, after: set<Path>)
      requires i < |events| && i < |disks|
      requires before == watched0 + NewlyWatched(dir, events, disks, i)
      requires after == before +
        if recursive && events[i].kind == EntryCreate && IsDirectory(disks[i], dir + [events[i].name])
        then DirsUnder(disks[i], dir + [events[i].name]) else {}
      ensures after == watched0 + NewlyWatched(dir, events, disks + [t], i + 1)
    {
      NewlyWatchedAppend(dir, events, disks, t, i);
      assert (disks + [t])[i] == disks[i];
    }

    /** `Handled` for the events from `dir`, as an `EventStep`. */
    ghost function HandledStep(dir: Path): EventStep {
      (event, cache0, cache, t0, t, attempts, trees, stuck) => Handled(dir, event, cache0, cache, t0, t, attempts, trees, stuck)
    }

    /** `step` is `Handled` for the events from `dir`. The equation is used
        only where a `Handled` term is at hand, so the batch loop can carry
        the trace without unfolding every event. */
    ghost predicate DescribesEvents(step: EventStep, dir: Path) {
      forall event, cache0, cache, t0, t, attempts, trees, stuck
        {:trigger Handled(dir, event, cache0, cache, t0, t, attempts, trees, stuck)} ::
        step(event, cache0, cache, t0, t, attempts, trees, stuck) == Handled(dir, event, cache0, cache, t0, t, attempts, trees, stuck)
    }

    /** `HandleEvent`, its effect on the cache and the disk stated through
        `step`. */
    method HandleStep(dir: Path, event: WatchEvent, ghost step: EventStep)
      returns (stuck: bool, ghost attempts: seq<bool>, ghost trees: seq<Tree>)
      requires Valid() && DescribesEvents(step, dir)
      modifies this`keys, this`targetFolder, this`counter, watcher, fs
      ensures Valid()
      ensures step(event, old(targetFolder), targetFolder, old(fs.tree), fs.tree, attempts, trees, stuck)
      ensures counter == old(counter) + CountedEvents([event])
      ensures forall k :: k in old(keys) ==> k in keys && keys[k] == old(keys)[k]
      ensures Watched() == old(Watched()) +
        if recursive && event.kind == EntryCreate && IsDirectory(old(fs.tree), dir + [event.name])
        then DirsUnder(old(fs.tree), dir + [event.name]) else {}
      ensures !recursive ==> keys == old(keys)
    {
      assert [event][..0] == [];
      stuck, attempts, trees := HandleEvent(dir, event);
    }

    /** A trace of `Handled` steps, event by event. */
    lemma TracedHandled(dir: Path, events: seq<WatchEvent>, caches: seq<Option<Path>>, disks: seq<Tree>,
                        attempts: seq<seq<bool>>, trees: seq<seq<Tree>>, stuck: bool)
      requires Traced(HandledStep(dir), events, caches, disks, attempts, trees, stuck)
      ensures |caches| == |disks| == |attempts| + 1 && |trees| == |attempts| <= |events|
      ensures forall j :: 0 <= j < |attempts| ==>
        Handled(dir, events[j], caches[j], caches[j + 1], disks[j], disks[j + 1], attempts[j], trees[j],
                stuck && j == |attempts| - 1)
    {
      var n := if stuck then |attempts| - 1 else |attempts|;
      EventsEach(HandledStep(dir), events, caches, disks, attempts, trees, n);
    }

    /** One more event extends the trace: `HandleEvent` on `events[i]`, with
        the target cache and the disk before it at the end of the trace. */
    method HandleNext(dir: Path, events: seq<WatchEvent>, i: nat, ghost step: EventStep,
                      ghost caches: seq<Option<Path>>, ghost disks: seq<Tree>, ghost attempts: seq<seq<bool>>,
                      ghost trees: seq<seq<Tree>>, ghost watched0: set<Path>, ghost counter0: int)
      returns (stuck: bool, ghost caches': seq<Option<Path>>, ghost disks': seq<Tree>,
               ghost attempts': seq<seq<bool>>, ghost trees': seq<seq<Tree>>)
      requires Valid() && DescribesEvents(step, dir)
      requires i == |attempts| < |events| && |caches| == |disks| == i + 1 && |trees| == i
      requires EventsUpTo(step, events, caches, disks, attempts, trees, i)
      requires targetFolder == caches[i] && fs.tree == disks[i]
      requires Watched() == watched0 + NewlyWatched(dir, events, disks, i)
      requires counter == counter0 + CountedEvents(events[..i])
      modifies this`keys, this`targetFolder, this`counter, watcher, fs
      ensures Valid()
      ensures caches' == caches + [targetFolder] && disks' == disks + [fs.tree]
      ensures |attempts'| == |trees'| == i + 1
      ensures EventsUpTo(step, events, caches', disks', attempts', trees', i)
      ensures step(events[i], caches'[i], caches'[i + 1], disks'[i], disks'[i + 1], attempts'[i], trees'[i], stuck)
      ensures !stuck ==> EventsUpTo(step, events, caches', disks', attempts', trees', i + 1)
      ensures Watched() == watched0 + NewlyWatched(dir, events, disks', i + 1)
      ensures counter == counter0 + CountedEvents(events[..i + 1])
      ensures forall k :: k in old(keys) ==> k in keys && keys[k] == old(keys)[k]
      ensures !recursive ==> keys == old(keys)
    {
      ghost var a, tr;
      ghost var before := Watched();
      stuck, a, tr := HandleStep(dir, events[i], step);
      EventsAppend(step, events, caches, disks, attempts, trees, targetFolder, fs.tree, a, tr, i);
      NewlyWatchedNext(dir, events, disks, fs.tree, i, watched0, before, Watched());
      CountedNext(events, i);
      caches', disks', attempts', trees' := caches + [targetFolder], disks + [fs.tree], attempts + [a], trees + [tr];
    }

    /** The events of one batch, in order, until one is stuck. */
    method HandleEvents(dir: Path, events: seq<WatchEvent>, ghost step: EventStep)
      returns (stuck: bool, ghost caches: seq<Option<Path>>, ghost disks: seq<Tree>,
               ghost attempts: seq<seq<bool>>, ghost trees: seq<seq<Tree>>)
      requires Valid() && DescribesEvents(step, dir)
      modifies this`keys, this`targetFolder, this`counter, watcher, fs
      ensures Valid()
      ensures Traced(step, events, caches, disks, attempts, trees, stuck)
      ensures caches[0] == old(targetFolder) && disks[0] == old(fs.tree)
      ensures targetFolder == caches[|attempts|] && fs.tree == disks[|attempts|]
      ensures counter == old(counter) + CountedEvents(events[..|attempts|])
      ensures forall k :: k in old(keys) ==> k in keys && keys[k] == old(keys)[k]
      ensures Watched() == old(Watched()) + NewlyWatched(dir, events, disks, |attempts|)
      ensures !recursive ==> keys == old(keys)
    {
      stuck := false;
      caches, disks, attempts, trees := [targetFolder], [fs.tree], [], [];
      var i := 0;
      while i < |events|
        invariant 0 <= i <= |events| && |attempts| == i && |caches| == |disks| == i + 1 && |trees| == i
        invariant Valid()
        invariant EventsUpTo(step, events, caches, disks, attempts, trees, i)
        invariant caches[0] == old(targetFolder) && disks[0] == old(fs.tree)
        invariant targetFolder == caches[i] && fs.tree == disks[i]
        invariant counter == old(counter) + CountedEvents(events[..i])
        invariant forall k :: k in old(keys) ==> k in keys && keys[k] == old(keys)[k]
        invariant Watched() == old(Watched()) + NewlyWatched(dir, events, disks, i)
        invariant !recursive ==> keys == old(keys)
      {
        stuck, caches, disks, attempts, trees :=
          HandleNext(dir, events, i, step, caches, disks, attempts, trees, old(Watched()), old(counter));
        if stuck {
          return;
        }
        i := i + 1;
      }
      assert events[..i] == events;
    }

    /** One batch: skipped whole when its key is unknown (and then not reset);
        otherwise its events are handled in order as `Traced` describes, and
        unless one is stuck the key is re-armed: a key that fails to re-arm is
        dropped, and `stop` says that no key is left. */
    method ProcessBatch(batch: Batch)
      returns (stop: bool, stuck: bool, ghost caches: seq<Option<Path>>, ghost disks: seq<Tree>,
               ghost attempts: seq<seq<bool>>, ghost trees: seq<seq<Tree>>)
      requires Valid()
      modifies this`keys, this`targetFolder, this`counter, watcher, fs
      ensures Valid()
      ensures batch.key !in old(keys) ==>
        !stop && !stuck && keys == old(keys) && counter == old(counter) && targetFolder == old(targetFolder) &&
        fs.tree == old(fs.tree) && unchanged(watcher)
      ensures stuck ==> !stop
      ensures batch.key in old(keys) ==>
        && Traced(HandledStep(old(keys)[batch.key]), batch.events, caches, disks, attempts, trees, stuck)
        && caches[0] == old(targetFolder) && disks[0] == old(fs.tree)
        && targetFolder == caches[|attempts|] && fs.tree == disks[|attempts|]
        && counter == old(counter) + CountedEvents(batch.events[..|attempts|])
        && Watched() <= old(Watched()) + NewlyWatched(old(keys)[batch.key], batch.events, disks, |attempts|)
        && (stuck || batch.resetOk ==>
              Watched() == old(Watched()) + NewlyWatched(old(keys)[batch.key], batch.events, disks, |attempts|))
      ensures batch.key in old(keys) && !stuck ==>
        && (batch.resetOk ==> forall k :: k in old(keys) ==> k in keys && keys[k] == old(keys)[k])
        && (!batch.resetOk ==>
              batch.key !in keys &&
              forall k :: k in old(keys) && k != batch.key ==> k in keys && keys[k] == old(keys)[k])
        && (stop <==> !batch.resetOk && keys == map[])
      ensures !recursive ==> keys.Keys <= old(keys).Keys
    {
      stop, stuck := false, false;
      caches, disks, attempts, trees := [targetFolder], [fs.tree], [], [];
      if batch.key !in keys {
        return;
      }
      var dir := keys[batch.key];
      stuck, caches, disks, attempts, trees := HandleEvents(dir, batch.events, HandledStep(dir));
      if stuck {
        return;
      }
      var valid := watcher.Reset(batch.key, batch.resetOk);
      if !valid {
        RemoveKey(keys, batch.key);
        keys := keys - {batch.key};
        if keys == map[] {
          stop := true;
          return;
        }
      }
    }

    /** `run()`'s start: the whole source tree in recursive mode, the source
        folder alone otherwise. */
    method Start() returns (r: Outcome<IoError>)
      requires Valid() && keys == map[]
      modifies this`keys, watcher
      ensures Valid()
      ensures recursive ==> (r.Pass? <==> SourcePath() in fs.tree)
      ensures !recursive ==> (r.Pass? <==> IsDirectory(fs.tree, SourcePath()))
      ensures r.Pass? && IsDirectory(fs.tree, SourcePath()) ==>
        Watched() == if recursive then DirsUnder(fs.tree, SourcePath()) else {SourcePath()}
      ensures r.Fail? || IsRegularFile(fs.tree, SourcePath()) ==> keys == map[]
    {
      if recursive {
        r := RegisterAllFolders(SourcePath());
      } else {
        r := RegisterFolder(SourcePath());
      }
    }

    /** `run()`: the start, then the batches in the order `take()` delivers
        them, until a failed reset leaves no directory watched. */
    method Run(batches: seq<Batch>) returns (outcome: RunOutcome)
      requires keys == map[]
      modifies this, fs
      ensures Valid()
      ensures outcome.StartFailed? <==>
        if recursive then SourcePath() !in old(fs.tree) else !IsDirectory(old(fs.tree), SourcePath())
      ensures outcome.Stopped? ==>
        0 < outcome.batchesTaken <= |batches| && !batches[outcome.batchesTaken - 1].resetOk && keys == map[]
      ensures outcome.Stuck? ==> 0 < outcome.batchesTaken <= |batches|
      // a batch that leaves no key ends the run, so waiting with nothing
      // watched only happens when a recursive start found a file
      ensures outcome.Waiting? && keys == map[] ==> recursive && IsRegularFile(old(fs.tree), SourcePath())
    {
      watcher := new WatchService();
      var started := Start();
      if started.Fail? {
        return StartFailed(started.error);
      }
      ghost var emptyStart := keys == map[];
      assert emptyStart ==> Watched() == {};
      assert IsDirectory(fs.tree, SourcePath()) ==> SourcePath() in DirsUnder(fs.tree, SourcePath());
      var i := 0;
      while i < |batches|
        invariant 0 <= i <= |batches|
        invariant Valid()
        invariant fresh(watcher)
        invariant keys == map[] ==> emptyStart
        invariant emptyStart ==> recursive && IsRegularFile(old(fs.tree), SourcePath())
      {
        var stop, stuck, _, _, _, _ := ProcessBatch(batches[i]);
        if stuck {
          return Stuck(i + 1);
        }
        if stop {
          return Stopped(i + 1);
        }
        i := i + 1;
      }
      outcome := Waiting;
    }
  }

  /** Keys and watched directories correspond one to one. */
  lemma WatchedOnce(e: MagicHotDeployerEngine, k1: Key, k2: Key)
    requires e.Valid() && k1 in e.keys && k2 in e.keys && e.keys[k1] == e.keys[k2]
    ensures k1 == k2
  {
  }
}
