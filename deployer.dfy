/**
 * `JbossDeployer`: what one change notification does to the deployment.
 * The event path is reflected from the watched source tree into the target
 * tree, classified as a file or a folder, filtered, and turned into a copy,
 * a delete or nothing; `ProcessEvent` repeats the whole attempt under the
 * retry policy, and `FindDeploymentPath` locates the exploded package of a
 * running JBoss when no fixed target is configured.
 */
module JbossDeployer {
  import opened Wrappers
  import opened Paths
  import opened FileSystems
  import opened Watching
  import opened Configuration

  // ---------------------------------------------------------------------
  // Path reflection

  /** `reflectSourceToTargetPath`: the path relative to `sourceBase`, rejoined
      under `targetBase`. `URI.relativize` hands back a path that is not under
      the base unchanged, and joining it under `targetBase` appends it whole. */
  function Reflect(p: Path, sourceBase: Path, targetBase: Path): Path {
    if IsPrefix(sourceBase, p) then targetBase + p[|sourceBase|..] else targetBase + p
  }

  /** A path `sourceBase + r` is reflected to `targetBase + r`. */
  lemma ReflectUnder(sourceBase: Path, r: Path, targetBase: Path)
    ensures Reflect(sourceBase + r, sourceBase, targetBase) == targetBase + r
  {
    assert (sourceBase + r)[..|sourceBase|] == sourceBase;
    assert (sourceBase + r)[|sourceBase|..] == r;
  }

  /** The source root itself is reflected to the target root. */
  lemma ReflectBase(sourceBase: Path, targetBase: Path)
    ensures Reflect(sourceBase, sourceBase, targetBase) == targetBase
  {
    ReflectUnder(sourceBase, [], targetBase);
    assert sourceBase + [] == sourceBase;
    assert targetBase + [] == targetBase;
  }

  /** Every reflected path lies under the target root. */
  lemma ReflectLandsUnderTarget(p: Path, sourceBase: Path, targetBase: Path)
    ensures IsPrefix(targetBase, Reflect(p, sourceBase, targetBase))
  {
    var r := Reflect(p, sourceBase, targetBase);
    assert r[..|targetBase|] == targetBase;
  }

  /** Reflecting back from the target tree into the source tree undoes the
      reflection of a path under the source root. */
  lemma ReflectRoundTrip(p: Path, sourceBase: Path, targetBase: Path)
    requires IsPrefix(sourceBase, p)
    ensures Reflect(Reflect(p, sourceBase, targetBase), targetBase, sourceBase) == p
  {
    var r := p[|sourceBase|..];
    assert p == sourceBase + r;
    ReflectUnder(sourceBase, r, targetBase);
    ReflectUnder(targetBase, r, sourceBase);
  }

  /** Different paths under the source root go to different target paths. */
  lemma ReflectInjective(p: Path, q: Path, sourceBase: Path, targetBase: Path)
    requires IsPrefix(sourceBase, p) && IsPrefix(sourceBase, q)
    requires Reflect(p, sourceBase, targetBase) == Reflect(q, sourceBase, targetBase)
    ensures p == q
  {
    ReflectRoundTrip(p, sourceBase, targetBase);
    ReflectRoundTrip(q, sourceBase, targetBase);
  }

  /** Neither root lies under the other. */
  predicate Disjoint(a: Path, b: Path) {
    !IsPrefix(a, b) && !IsPrefix(b, a)
  }

  /** With disjoint roots, nothing under the source root is a reflected path. */
  lemma SourceNotUnderTarget(p: Path, sourceBase: Path, targetBase: Path)
    requires Disjoint(sourceBase, targetBase) && IsPrefix(sourceBase, p)
    ensures !IsPrefix(targetBase, p)
  {
    if IsPrefix(targetBase, p) {
      PrefixesOfOnePath(sourceBase, targetBase, p);
    }
  }

  // ---------------------------------------------------------------------
  // Classification of one event

  /** The target root with the configured inner path (`destSub`) joined below it. */
  function EffectiveTarget(baseTarget: Path, inner: Option<string>): (r: Path)
    ensures IsPrefix(baseTarget, r)
    ensures inner.None? || inner == Some("") ==> r == baseTarget
  {
    if inner.Some? && inner.value != "" then baseTarget + Split(inner.value) else baseTarget
  }

  /** A folder is recognised on the target side first, so a folder already
      deleted from the source still counts as one; only when nothing is at
      the target is the source consulted. */
  predicate IsFolder(t: Tree, target: Path, source: Path) {
    if target in t then t[target].Dir? else IsDirectory(t, source)
  }

  lemma IsFolderCases(t: Tree, target: Path, source: Path)
    ensures IsFolder(t, target, source) <==>
      IsDirectory(t, target) || (target !in t && IsDirectory(t, source))
    ensures IsRegularFile(t, target) ==> !IsFolder(t, target, source)
  {
  }

  /** What `trySingleProcessEvent` does with one event. */
  datatype Action =
    | Excluded          // a file the filter does not find a match in
    | DeployFolder      // `hotDeployNewFolder`
    | DeployFile        // `hotDeployFile`
    | UndeployFolder    // `hotUndeployFolder`
    | UndeployFile      // `hotUndeployFile`
    | SkipFolderModify  // a folder's own modification: nothing to do
    | Unsupported       // any other kind

  /** The filter is tried on files only (with `Matcher.find`, so a match
      anywhere in the path text will do); the action is then chosen by kind
      and by file or folder. */
  function Plan(kind: Kind, isFolder: bool, filterPattern: Option<string>, regex: RegexEngine, sourceText: string): Action {
    if !isFolder && filterPattern.Some? && !regex.find(filterPattern.value, sourceText) then Excluded
    else match kind
      case EntryCreate => if isFolder then DeployFolder else DeployFile
      case EntryDelete => if isFolder then UndeployFolder else UndeployFile
      case EntryModify => if isFolder then SkipFolderModify else DeployFile
      case Overflow => Unsupported
  }

  /** An event is excluded exactly when it is about a file, a filter is
      configured, and the filter finds no match in the source path. */
  lemma PlanExcludesIff(kind: Kind, isFolder: bool, filterPattern: Option<string>, regex: RegexEngine, sourceText: string)
    ensures Plan(kind, isFolder, filterPattern, regex, sourceText) == Excluded <==>
      !isFolder && filterPattern.Some? && !regex.find(filterPattern.value, sourceText)
  {
  }

  /** The action table for events the filter lets through. */
  lemma PlanTable(kind: Kind, isFolder: bool, filterPattern: Option<string>, regex: RegexEngine, sourceText: string)
    requires Plan(kind, isFolder, filterPattern, regex, sourceText) != Excluded
    ensures var a := Plan(kind, isFolder, filterPattern, regex, sourceText);
      && (a == DeployFolder <==> kind == EntryCreate && isFolder)
      && (a == DeployFile <==> (kind == EntryCreate || kind == EntryModify) && !isFolder)
      && (a == UndeployFolder <==> kind == EntryDelete && isFolder)
      && (a == UndeployFile <==> kind == EntryDelete && !isFolder)
      && (a == SkipFolderModify <==> kind == EntryModify && isFolder)
      && (a == Unsupported <==> kind == Overflow)
  {
  }

  // ---------------------------------------------------------------------
  // The filesystem actions

  /** `hotDeployFile`'s effect on the disk: nothing when the source is
      missing, else the copy. */
  function DeployFileEffect(t: Tree, source: Path, target: Path): Result<Tree, IoError> {
    if source !in t then Success(t) else Copy(t, source, target)
  }

  /** A vanished source is skipped without error and without change; an
      existing regular file that can be copied ends up at the target. */
  lemma DeployFileEffectSkipsOrCopies(t: Tree, source: Path, target: Path)
    ensures source !in t ==> DeployFileEffect(t, source, target) == Success(t)
    ensures IsRegularFile(t, source) && source != target && !IsDirectory(t, target) && !BlockedByFile(t, target) ==>
      DeployFileEffect(t, source, target).Success? &&
      target in DeployFileEffect(t, source, target).value &&
      DeployFileEffect(t, source, target).value[target] == t[source]
  {
    if IsRegularFile(t, source) && source != target && !IsDirectory(t, target) && !BlockedByFile(t, target) {
      CopyEffect(t, source, target);
    }
  }

  /** Copying an unchanged file a second time changes nothing more. */
  lemma DeployFileTwice(t: Tree, source: Path, target: Path)
    requires DeployFileEffect(t, source, target).Success?
    requires !IsPrefix(target, source)
    ensures DeployFileEffect(DeployFileEffect(t, source, target).value, source, target) ==
            DeployFileEffect(t, source, target)
  {
    if source in t {
      var t1 := Copy(t, source, target).value;
      CopyEffect(t, source, target);
      assert source in t1 && t1[source] == t[source];
      assert !BlockedByFile(t1, target) by {
        forall i | 0 <= i < |target| ensures !IsRegularFile(t1, target[..i]) {
          assert IsDirectory(t1, target[..i]);
        }
      }
      assert !IsDirectory(t1, target);
      var t2 := Copy(t1, source, target).value;
      assert MakeParents(t1, target) == t1 by {
        forall a | a in Ancestors(target) ensures a in t1 {
          var i :| 0 <= i < |target| && a == target[..i];
          assert IsDirectory(t1, target[..i]);
        }
      }
      assert t2 == t1[target := t[source]];
      assert t2 == t1;
    }
  }

  method HotDeployFile(fs: FileSystem, source: Path, target: Path) returns (r: Result<bool, IoError>)
    modifies fs
    ensures r.Failure? <==> DeployFileEffect(old(fs.tree), source, target).Failure?
    ensures r.Failure? ==> r.error == DeployFileEffect(old(fs.tree), source, target).error && fs.tree == old(fs.tree)
    ensures r.Success? ==> r.value == (source in old(fs.tree)) &&
                           fs.tree == DeployFileEffect(old(fs.tree), source, target).value
  {
    if source !in fs.tree {
      return Success(false);
    }
    var copied := fs.CopyFile(source, target);
    match copied
    case Pass => r := Success(true);
    case Fail(e) => r := Failure(e);
  }

  /** `hotUndeployFile`: `File.delete` reports failure by its result, which
      is ignored, so this never throws. */
  method HotUndeployFile(fs: FileSystem, target: Path) returns (r: bool)
    modifies fs
    ensures r == (target in old(fs.tree))
    ensures fs.tree == Delete(old(fs.tree), target)
  {
    if target !in fs.tree {
      return false;
    }
    fs.DeleteFile(target);
    r := true;
  }

  method HotUndeployFolder(fs: FileSystem, target: Path) returns (r: Result<bool, IoError>)
    modifies fs
    ensures r.Failure? <==> DeleteTree(old(fs.tree), target).Failure?
    ensures r.Failure? ==> r.error == DeleteTree(old(fs.tree), target).error && fs.tree == old(fs.tree)
    ensures r.Success? ==> r.value == (target in old(fs.tree)) && fs.tree == DeleteTree(old(fs.tree), target).value
  {
    if target !in fs.tree {
      return Success(false);
    }
    var deleted := fs.DeleteDirectory(target);
    match deleted
    case Pass => r := Success(true);
    case Fail(e) => r := Failure(e);
  }

  /** The paths deploying `files` may write: the reflected path of each file
      and the directories `mkdirs` creates above it. */
  ghost function Written(files: set<Path>, source: Path, target: Path): set<Path> {
    set f, q | f in files && q in Ancestors(Reflect(f, source, target)) + {Reflect(f, source, target)} :: q
  }

  lemma WrittenMonotone(a: set<Path>, b: set<Path>, source: Path, target: Path)
    requires a <= b
    ensures Written(a, source, target) <= Written(b, source, target)
  {
    forall q | q in Written(a, source, target) ensures q in Written(b, source, target) {
      var f :| f in a && q in Ancestors(Reflect(f, source, target)) + {Reflect(f, source, target)};
      assert f in b;
    }
  }

  /** The files among `files` whose copy to their reflected path fails on `t`. */
  ghost function FailingCopies(t: Tree, files: set<Path>, source: Path, target: Path): set<Path> {
    set f | f in files && Copy(t, f, Reflect(f, source, target)).Failure?
  }

  /** What a folder deployment may have done to the disk: nothing was removed,
      nothing outside the target root changed, and every new or changed entry
      is the reflected path of a file of the folder or a directory above one;
      when it stopped early on an existing folder, copying some file of the
      folder to its reflected path fails on the disk it left; when it
      finished and the roots are disjoint, every file of the source folder is
      at its reflected path with its content. */
  ghost predicate FolderDeployed(t0: Tree, t: Tree, source: Path, target: Path, finished: bool) {
    && t0.Keys <= t.Keys
    && (forall q :: q in t0 && !IsPrefix(target, q) ==> t[q] == t0[q])
    && (forall q :: q in t && (q !in t0 || t[q] != t0[q]) ==> q in Written(FilesUnder(t0, source), source, target))
    && (!finished && source in t0 ==> FailingCopies(t, FilesUnder(t0, source), source, target) != {})
    && (finished && Disjoint(source, target) ==>
          forall f :: f in FilesUnder(t0, source) ==>
            Reflect(f, source, target) in t && t[Reflect(f, source, target)] == t0[f])
  }

  /** `hotDeployNewFolder`: walks the files of the new folder (in an order the
      walk chooses) and deploys each to its reflected path, stopping at the
      first copy that throws; a start that is not there makes the walk throw. */
  method HotDeployNewFolder(fs: FileSystem, source: Path, target: Path) returns (r: Result<bool, IoError>)
    modifies fs
    ensures source !in old(fs.tree) ==> r == Failure(NoSuchFile(source)) && fs.tree == old(fs.tree)
    ensures r.Success? ==> r.value
    ensures r.Failure? && source in old(fs.tree) ==>
      exists f :: f in FilesUnder(old(fs.tree), source) && Copy(fs.tree, f, Reflect(f, source, target)) == Failure(r.error)
    ensures FolderDeployed(old(fs.tree), fs.tree, source, target, r.Success?)
  {
    if source !in fs.tree {
      return Failure(NoSuchFile(source));
    }
    ghost var t0 := fs.tree;
    var pending := FilesUnder(fs.tree, source);
    ghost var done: set<Path> := {};
    while pending != {}
      invariant pending + done == FilesUnder(t0, source) && pending !! done
      invariant t0.Keys <= fs.tree.Keys
      invariant forall q :: q in t0 && !IsPrefix(target, q) ==> fs.tree[q] == t0[q]
      invariant forall q :: q in fs.tree && (q !in t0 || fs.tree[q] != t0[q]) ==> q in Written(done, source, target)
      invariant Disjoint(source, target) ==>
        forall f :: f in done ==> Reflect(f, source, target) in fs.tree && fs.tree[Reflect(f, source, target)] == t0[f]
      decreases pending
    {
      var f :| f in pending;
      var dst := Reflect(f, source, target);
      ReflectLandsUnderTarget(f, source, target);
      ghost var before := fs.tree;
      var deployed := HotDeployFile(fs, f, dst);
      if deployed.Failure? {
        WrittenMonotone(done, FilesUnder(t0, source), source, target);
        assert Copy(fs.tree, f, dst) == Failure(deployed.error);
        assert f in FailingCopies(fs.tree, FilesUnder(t0, source), source, target);
        return Failure(deployed.error);
      }
      if f in before {
        CopyEffect(before, f, dst);
      }
      WrittenMonotone(done, done + {f}, source, target);
      forall q | q in fs.tree && (q !in t0 || fs.tree[q] != t0[q])
        ensures q in Written(done + {f}, source, target)
      {
        if q == dst || q in Ancestors(dst) {
          assert q in Ancestors(Reflect(f, source, target)) + {Reflect(f, source, target)};
        }
      }
      if Disjoint(source, target) {
        SourceNotUnderTarget(f, source, target);
        forall g | g in done
          ensures Reflect(g, source, target) in fs.tree && fs.tree[Reflect(g, source, target)] == t0[g]
        {
          if Reflect(g, source, target) == dst {
            ReflectInjective(g, f, source, target);
          }
        }
      }
      pending := pending - {f};
      done := done + {f};
    }
    r := Success(true);
  }

  // ---------------------------------------------------------------------
  // One attempt

  /** The path an event is deployed to. */
  function TargetOf(eventPath: Path, baseSource: Path, baseTarget: Path, inner: Option<string>): Path {
    Reflect(eventPath, baseSource, EffectiveTarget(baseTarget, inner))
  }

  /** The action `trySingleProcessEvent` takes for an event on a given disk. */
  function PlanFor(t: Tree, filterPattern: Option<string>, regex: RegexEngine, eventPath: Path, kind: Kind,
                   baseSource: Path, baseTarget: Path, inner: Option<string>): Action
  {
    var target := TargetOf(eventPath, baseSource, baseTarget, inner);
    Plan(kind, IsFolder(t, target, eventPath), filterPattern, regex, Render(eventPath))
  }

  /** What one attempt that ran does to the disk, with `ok` telling whether it
      returned normally: per plan, nothing; the target deleted; the file copied
      or the folder deleted exactly when that can be done, the disk untouched
      otherwise; or a folder deployment as `FolderDeployed` describes, which
      fails at once when the source folder is gone. */
  ghost predicate AttemptEffect(t0: Tree, t: Tree, ok: bool, filterPattern: Option<string>, regex: RegexEngine,
                                eventPath: Path, kind: Kind, baseSource: Path, baseTarget: Path, inner: Option<string>)
  {
    var target := TargetOf(eventPath, baseSource, baseTarget, inner);
    match PlanFor(t0, filterPattern, regex, eventPath, kind, baseSource, baseTarget, inner)
    case Excluded => ok && t == t0
    case Unsupported => ok && t == t0
    case SkipFolderModify => ok && t == t0
    case UndeployFile => ok && t == Delete(t0, target)
    case DeployFile =>
      var effect := DeployFileEffect(t0, eventPath, target);
      (ok <==> effect.Success?) && t == (if ok then effect.value else t0)
    case UndeployFolder =>
      var effect := DeleteTree(t0, target);
      (ok <==> effect.Success?) && t == (if ok then effect.value else t0)
    case DeployFolder =>
      (eventPath !in t0 ==> !ok && t == t0) && FolderDeployed(t0, t, eventPath, target, ok)
  }

  /** One attempt under the environment's fault schedule: a faulted attempt
      fails before it touches the disk. */
  ghost predicate Attempted(fault: bool, t0: Tree, t: Tree, ok: bool, filterPattern: Option<string>, regex: RegexEngine,
                            eventPath: Path, kind: Kind, baseSource: Path, baseTarget: Path, inner: Option<string>)
  {
    if fault then !ok && t == t0
    else AttemptEffect(t0, t, ok, filterPattern, regex, eventPath, kind, baseSource, baseTarget, inner)
  }

  /** `trySingleProcessEvent`: classifies the event and runs its action, with
      the effect on the disk `AttemptEffect` describes. The result is false
      for an excluded file or an unsupported kind and true otherwise, whatever
      the action reported; an exception the action throws is the failure,
      carrying the error of the step that failed. */
  method TrySingleProcessEvent(fs: FileSystem, filterPattern: Option<string>, regex: RegexEngine,
                               eventPath: Path, kind: Kind, baseSource: Path, baseTarget: Path,
                               inner: Option<string>)
    returns (r: Result<bool, IoError>)
    modifies fs
    ensures AttemptEffect(old(fs.tree), fs.tree, r.Success?, filterPattern, regex, eventPath, kind, baseSource, baseTarget, inner)
    ensures var target := TargetOf(eventPath, baseSource, baseTarget, inner);
      match PlanFor(old(fs.tree), filterPattern, regex, eventPath, kind, baseSource, baseTarget, inner)
      case Excluded => r == Success(false)
      case Unsupported => r == Success(false)
      case DeployFile =>
        (r.Failure? ==> r.error == DeployFileEffect(old(fs.tree), eventPath, target).error) && (r.Success? ==> r.value)
      case UndeployFolder =>
        (r.Failure? ==> r.error == DeleteTree(old(fs.tree), target).error) && (r.Success? ==> r.value)
      case _ => r.Success? ==> r.value
  {
    var effectiveTarget := EffectiveTarget(baseTarget, inner);
    var target := Reflect(eventPath, baseSource, effectiveTarget);
    var isFolder := if target in fs.tree then fs.tree[target].Dir? else IsDirectory(fs.tree, eventPath);

    if !isFolder && filterPattern.Some? {
      if !regex.find(filterPattern.value, Render(eventPath)) {
        return Success(false);
      }
    }

    match kind {
      case EntryCreate =>
        if isFolder {
          var deployed := HotDeployNewFolder(fs, eventPath, target);
          if deployed.Failure? {
            return Failure(deployed.error);
          }
        } else {
          var deployed := HotDeployFile(fs, eventPath, target);
          if deployed.Failure? {
            return Failure(deployed.error);
          }
        }
      case EntryDelete =>
        if isFolder {
          var undeployed := HotUndeployFolder(fs, target);
          if undeployed.Failure? {
            return Failure(undeployed.error);
          }
        } else {
          var _ := HotUndeployFile(fs, target);
        }
      case EntryModify =>
        if isFolder {
          return Success(true);
        } else {
          var deployed := HotDeployFile(fs, eventPath, target);
          if deployed.Failure? {
            return Failure(deployed.error);
          }
        }
      case Overflow =>
        return Success(false);
    }
    r := Success(true);
  }

  // ---------------------------------------------------------------------
  // The retry loop

  /** How `processEvent` left its loop: by rethrowing the attempt's exception,
      or by `Thread.sleep` rejecting a negative delay. */
  datatype Escape = Rethrown | SleepRejected

  /** Where `processEvent` stands after a run of attempts: still looping, or
      gone with an exception. `failures` is the number of failed attempts. */
  datatype RetryState =
    | Running(attempts: nat, failures: nat)
    | Escaped(attempts: nat, failures: nat, cause: Escape)

  /** `processEvent` as written, on the outcomes of its attempts (true for an
      attempt that returned): `attempt` is one more than the failures so far,
      a failure with `attempt > maxRetries` is rethrown, any other failure
      sleeps `retryDelay` and tries again, and a success tries again too.
      Outcomes after the escape are never reached. */
  function Retry(outcomes: seq<bool>, maxRetries: int, retryDelay: int): RetryState
    decreases |outcomes|
  {
    if outcomes == [] then Running(0, 0)
    else
      var previous := Retry(outcomes[..|outcomes| - 1], maxRetries, retryDelay);
      if previous.Escaped? then previous
      else if outcomes[|outcomes| - 1] then Running(previous.attempts + 1, previous.failures)
      else if previous.failures + 1 > maxRetries then Escaped(previous.attempts + 1, previous.failures + 1, Rethrown)
      else if retryDelay < 0 then Escaped(previous.attempts + 1, previous.failures + 1, SleepRejected)
      else Running(previous.attempts + 1, previous.failures + 1)
  }

  /** The delays slept: one after each failure the loop survived. */
  function Sleeps(s: RetryState): nat {
    if s.Running? || s.failures == 0 then s.failures else s.failures - 1
  }

  function Failures(outcomes: seq<bool>): nat
    decreases |outcomes|
  {
    if outcomes == [] then 0
    else Failures(outcomes[..|outcomes| - 1]) + (if outcomes[|outcomes| - 1] then 0 else 1)
  }

  /** The failure on which the loop is left: the first one with
      `attempt > maxRetries`, or the very first one when the delay is negative. */
  function Threshold(maxRetries: int, retryDelay: int): nat {
    if retryDelay < 0 || maxRetries < 0 then 1 else maxRetries + 1
  }

  /** Outcomes whose count the loop as written reports as its attempts are
      all reached: the loop was still running before each of them, so no
      attempt follows the rethrow. */
  lemma {:induction false} WrittenAttemptsAllReached(outcomes: seq<bool>, maxRetries: int, retryDelay: int)
    requires Retry(outcomes, maxRetries, retryDelay).attempts == |outcomes|
    ensures forall k :: 0 <= k < |outcomes| ==> Retry(outcomes[..k], maxRetries, retryDelay).Running?
    decreases |outcomes|
  {
    if outcomes != [] {
      var previous := outcomes[..|outcomes| - 1];
      WrittenAttemptsBounded(previous, maxRetries, retryDelay);
      WrittenAttemptsAllReached(previous, maxRetries, retryDelay);
      forall k | 0 <= k < |outcomes|
        ensures Retry(outcomes[..k], maxRetries, retryDelay).Running?
      {
        if k < |previous| {
          assert outcomes[..k] == previous[..k];
        } else {
          assert outcomes[..k] == previous;
        }
      }
    }
  }

  lemma {:induction false} WrittenAttemptsBounded(outcomes: seq<bool>, maxRetries: int, retryDelay: int)
    ensures Retry(outcomes, maxRetries, retryDelay).attempts <= |outcomes|
    decreases |outcomes|
  {
    if outcomes != [] {
      WrittenAttemptsBounded(outcomes[..|outcomes| - 1], maxRetries, retryDelay);
    }
  }

  /** The loop is left exactly on the `Threshold`-th failure, by a rethrow
      unless it was a negative delay that ended a loop that had retries left;
      until then every outcome is an attempt, and the attempts and failures
      are counted exactly. */
  lemma {:induction false} RetryCharacterized(outcomes: seq<bool>, maxRetries: int, retryDelay: int)
    ensures var s := Retry(outcomes, maxRetries, retryDelay);
      && (s.Running? <==> Failures(outcomes) < Threshold(maxRetries, retryDelay))
      && (s.Running? ==> s == Running(|outcomes|, Failures(outcomes)))
      && (s.Escaped? ==>
            && 0 < s.attempts <= |outcomes|
            && s.failures == Threshold(maxRetries, retryDelay)
            && Failures(outcomes[..s.attempts]) == s.failures
            && !outcomes[s.attempts - 1]
            && s.cause == (if Threshold(maxRetries, retryDelay) > maxRetries then Rethrown else SleepRejected))
    decreases |outcomes|
  {
    if outcomes != [] {
      var init := outcomes[..|outcomes| - 1];
      RetryCharacterized(init, maxRetries, retryDelay);
      var previous := Retry(init, maxRetries, retryDelay);
      if previous.Escaped? {
        assert outcomes[..previous.attempts] == init[..previous.attempts];
        FailuresGrow(outcomes);
      } else {
        assert outcomes[..|outcomes|] == outcomes;
      }
    }
  }

  lemma FailuresGrow(outcomes: seq<bool>)
    requires outcomes != []
    ensures Failures(outcomes) >= Failures(outcomes[..|outcomes| - 1])
  {
  }

  /** A successful attempt never ends the loop: the next attempt follows. */
  lemma SuccessKeepsLooping(outcomes: seq<bool>, maxRetries: int, retryDelay: int)
    requires Retry(outcomes, maxRetries, retryDelay).Running?
    ensures Retry(outcomes + [true], maxRetries, retryDelay) ==
      Running(|outcomes| + 1, Retry(outcomes, maxRetries, retryDelay).failures)
  {
    assert (outcomes + [true])[..|outcomes|] == outcomes;
    RetryCharacterized(outcomes, maxRetries, retryDelay);
  }

  /** Only failures end the loop: with a non-negative delay it is left, by a
      rethrow, exactly when maxRetries + 1 attempts (at least one) have failed,
      after one sleep between consecutive failures. */
  lemma EscapesOnlyAfterRetries(outcomes: seq<bool>, maxRetries: int, retryDelay: int)
    requires retryDelay >= 0
    ensures var s := Retry(outcomes, maxRetries, retryDelay);
      && (s.Escaped? <==> Failures(outcomes) >= if maxRetries < 0 then 1 else maxRetries + 1)
      && (s.Escaped? ==> s.cause == Rethrown && Sleeps(s) == s.failures - 1)
  {
    RetryCharacterized(outcomes, maxRetries, retryDelay);
  }

  /** Attempts that all succeed keep the loop going forever. */
  lemma AllSuccessesNeverReturn(outcomes: seq<bool>, maxRetries: int, retryDelay: int)
    requires forall i :: 0 <= i < |outcomes| ==> outcomes[i]
    ensures Retry(outcomes, maxRetries, retryDelay) == Running(|outcomes|, 0)
  {
    NoFailures(outcomes);
    RetryCharacterized(outcomes, maxRetries, retryDelay);
  }

  lemma {:induction false} NoFailures(outcomes: seq<bool>)
    requires forall i :: 0 <= i < |outcomes| ==> outcomes[i]
    ensures Failures(outcomes) == 0
    decreases |outcomes|
  {
    if outcomes != [] {
      NoFailures(outcomes[..|outcomes| - 1]);
    }
  }

  /** A relation between an attempt's fault flag, the disk before and after
      it, and whether it returned normally. */
  type Step = (bool, Tree, Tree, bool) -> bool

  /** `Attempted` for one event, as a `Step`. */
  ghost function AttemptStep(filterPattern: Option<string>, regex: RegexEngine, eventPath: Path, kind: Kind,
                             baseSource: Path, baseTarget: Path, inner: Option<string>): Step
  {
    (fault, t0, t, ok) => Attempted(fault, t0, t, ok, filterPattern, regex, eventPath, kind, baseSource, baseTarget, inner)
  }

  /** `step` is `Attempted` for one event. The equation is used only where
      an `Attempted` term is at hand, so the retry loops can carry the
      history without unfolding every attempt. */
  ghost predicate Describes(step: Step, filterPattern: Option<string>, regex: RegexEngine, eventPath: Path, kind: Kind,
                            baseSource: Path, baseTarget: Path, inner: Option<string>)
  {
    forall fault, t0, t, ok {:trigger Attempted(fault, t0, t, ok, filterPattern, regex, eventPath, kind, baseSource, baseTarget, inner)} ::
      step(fault, t0, t, ok) == Attempted(fault, t0, t, ok, filterPattern, regex, eventPath, kind, baseSource, baseTarget, inner)
  }

  /** The disks between the attempts: `trees[i]` before attempt i and
      `trees[i + 1]` after it, each attempt related by `step`. */
  ghost predicate History(faults: seq<bool>, outcomes: seq<bool>, trees: seq<Tree>, step: Step)
  {
    |outcomes| <= |faults| && |trees| == |outcomes| + 1 && StepsUpTo(faults, outcomes, trees, step, |outcomes|)
  }

  /** The first `k` attempts are each related by `step`. */
  ghost predicate StepsUpTo(faults: seq<bool>, outcomes: seq<bool>, trees: seq<Tree>, step: Step, k: nat)
    requires k <= |outcomes| <= |faults| && |trees| == |outcomes| + 1
    decreases k
  {
    k == 0 || (StepsUpTo(faults, outcomes, trees, step, k - 1) && step(faults[k - 1], trees[k - 1], trees[k], outcomes[k - 1]))
  }

  lemma {:induction false} StepsEach(faults: seq<bool>, outcomes: seq<bool>, trees: seq<Tree>, step: Step, k: nat)
    requires k <= |outcomes| <= |faults| && |trees| == |outcomes| + 1
    requires StepsUpTo(faults, outcomes, trees, step, k)
    ensures forall i :: 0 <= i < k ==> step(faults[i], trees[i], trees[i + 1], outcomes[i])
    decreases k
  {
    if k > 0 {
      StepsEach(faults, outcomes, trees, step, k - 1);
    }
  }

  lemma HistoryEach(faults: seq<bool>, outcomes: seq<bool>, trees: seq<Tree>, step: Step)
    requires History(faults, outcomes, trees, step)
    ensures |trees| == |outcomes| + 1 && |outcomes| <= |faults|
    ensures forall i :: 0 <= i < |outcomes| ==> step(faults[i], trees[i], trees[i + 1], outcomes[i])
  {
    StepsEach(faults, outcomes, trees, step, |outcomes|);
  }

  /** Appending an attempt keeps the steps before it. */
  lemma {:induction false} StepsAppend(faults: seq<bool>, outcomes: seq<bool>, trees: seq<Tree>, step: Step,
                                       ok: bool, t: Tree, k: nat)
    requires k <= |outcomes| < |faults| && |trees| == |outcomes| + 1
    requires StepsUpTo(faults, outcomes, trees, step, k)
    ensures StepsUpTo(faults, outcomes + [ok], trees + [t], step, k)
    decreases k
  {
    if k > 0 {
      StepsAppend(faults, outcomes, trees, step, ok, t, k - 1);
      assert (outcomes + [ok])[k - 1] == outcomes[k - 1];
      assert (trees + [t])[k - 1] == trees[k - 1] && (trees + [t])[k] == trees[k];
    }
  }

  /** One more attempt extends the history. */
  lemma HistoryExtend(faults: seq<bool>, outcomes: seq<bool>, trees: seq<Tree>, step: Step, ok: bool, t: Tree)
    requires History(faults, outcomes, trees, step) && |outcomes| < |faults|
    requires step(faults[|outcomes|], trees[|outcomes|], t, ok)
    ensures History(faults, outcomes + [ok], trees + [t], step)
  {
    StepsAppend(faults, outcomes, trees, step, ok, t, |outcomes|);
  }

  /** One attempt of the retry loop: a faulted attempt fails at once,
      otherwise `trySingleProcessEvent` runs. The attempt extends the
      history of the attempts before it. */
  method AttemptUnder(fault: bool, fs: FileSystem, filterPattern: Option<string>, regex: RegexEngine,
                      eventPath: Path, kind: Kind, baseSource: Path, baseTarget: Path, inner: Option<string>,
                      faults: seq<bool>, ghost step: Step, ghost outcomes: seq<bool>, ghost trees: seq<Tree>)
    returns (ok: bool, ghost outcomes': seq<bool>, ghost trees': seq<Tree>)
    requires Describes(step, filterPattern, regex, eventPath, kind, baseSource, baseTarget, inner)
    requires History(faults, outcomes, trees, step)
    requires |outcomes| < |faults| && fault == faults[|outcomes|] && fs.tree == trees[|outcomes|]
    modifies fs
    ensures outcomes' == outcomes + [ok] && outcomes'[..|outcomes|] == outcomes && (fault ==> !ok)
    ensures trees' == trees + [fs.tree]
    ensures History(faults, outcomes', trees', step)
  {
    ok := false;
    if !fault {
      var r := TrySingleProcessEvent(fs, filterPattern, regex, eventPath, kind, baseSource, baseTarget, inner);
      ok := r.Success?;
    }
    assert Attempted(fault, trees[|outcomes|], fs.tree, ok, filterPattern, regex, eventPath, kind, baseSource, baseTarget, inner);
    HistoryExtend(faults, outcomes, trees, step, ok, fs.tree);
    outcomes', trees' := outcomes + [ok], trees + [fs.tree];
  }

  /** `processEvent`: attempts the event again and again. The environment's
      schedule `faults` says which attempts are made to fail before they touch
      the disk; when the schedule runs out while the loop is still going, the
      call has not returned. */
  method ProcessEvent(fs: FileSystem, filterPattern: Option<string>, regex: RegexEngine,
                      eventPath: Path, kind: Kind, baseSource: Path, baseTarget: Path, inner: Option<string>,
                      maxRetries: int, retryDelay: int, faults: seq<bool>, ghost step: Step)
    returns (state: RetryState, ghost outcomes: seq<bool>, ghost sleeps: nat, ghost trees: seq<Tree>)
    requires Describes(step, filterPattern, regex, eventPath, kind, baseSource, baseTarget, inner)
    modifies fs
    ensures state == Retry(outcomes, maxRetries, retryDelay)
    ensures |outcomes| <= |faults|
    ensures state.Running? ==> |outcomes| == |faults|
    ensures state.attempts == |outcomes|
    ensures forall i :: 0 <= i < |outcomes| && faults[i] ==> !outcomes[i]
    ensures |trees| == |outcomes| + 1 && trees[0] == old(fs.tree) && fs.tree == trees[|outcomes|]
    ensures History(faults, outcomes, trees, step)
    ensures sleeps == Sleeps(state)
  {
    var attempt := 1;
    var i := 0;
    outcomes, sleeps, trees := [], 0, [fs.tree];
    state := Running(0, 0);
    while i < |faults|
      invariant 0 <= i <= |faults| && |outcomes| == i
      invariant state == Retry(outcomes, maxRetries, retryDelay) && state.Running?
      invariant attempt == state.failures + 1 && state.attempts == i && sleeps == state.failures
      invariant forall j :: 0 <= j < i && faults[j] ==> !outcomes[j]
      invariant |trees| == i + 1 && trees[0] == old(fs.tree) && fs.tree == trees[i]
      invariant History(faults, outcomes, trees, step)
    {
      var succeeded;
      succeeded, outcomes, trees := AttemptUnder(faults[i], fs, filterPattern, regex, eventPath, kind, baseSource, baseTarget, inner, faults, step, outcomes, trees);
      if !succeeded {
        if attempt > maxRetries {
          return Escaped(i + 1, attempt, Rethrown), outcomes, sleeps, trees;
        }
        attempt := attempt + 1;
        if retryDelay < 0 {
          return Escaped(i + 1, attempt - 1, SleepRejected), outcomes, sleeps, trees;
        }
        // Thread.sleep(retryDelay)
        sleeps := sleeps + 1;
      }
      state := Running(i + 1, attempt - 1);
      i := i + 1;
    }
  }

  // ---------------------------------------------------------------------
  // The retry loop with the exit on success it lacks

  /** How the corrected loop stands: still trying, returned after the
      attempt that succeeded, or gone with an exception. */
  datatype IntendedState =
    | Trying(attempts: nat, failures: nat)
    | Returned(attempts: nat)
    | Thrown(attempts: nat, cause: Escape)

  /** `processEvent` returning on the first attempt that succeeds; failures
      are handled as written. */
  function RetryIntended(outcomes: seq<bool>, maxRetries: int, retryDelay: int): IntendedState
    decreases |outcomes|
  {
    if outcomes == [] then Trying(0, 0)
    else
      var previous := RetryIntended(outcomes[..|outcomes| - 1], maxRetries, retryDelay);
      if !previous.Trying? then previous
      else if outcomes[|outcomes| - 1] then Returned(previous.attempts + 1)
      else if previous.failures + 1 > maxRetries then Thrown(previous.attempts + 1, Rethrown)
      else if retryDelay < 0 then Thrown(previous.attempts + 1, SleepRejected)
      else Trying(previous.attempts + 1, previous.failures + 1)
  }

  lemma {:induction false} IntendedAttemptsBounded(outcomes: seq<bool>, maxRetries: int, retryDelay: int)
    ensures RetryIntended(outcomes, maxRetries, retryDelay).attempts <= |outcomes|
    decreases |outcomes|
  {
    if outcomes != [] {
      IntendedAttemptsBounded(outcomes[..|outcomes| - 1], maxRetries, retryDelay);
    }
  }

  /** Outcomes whose count the corrected loop reports as its attempts are all
      reached: the loop was still trying before each of them, so nothing is
      attempted after it returns or throws, and a success can only be the
      last outcome. */
  lemma {:induction false} IntendedAttemptsAllReached(outcomes: seq<bool>, maxRetries: int, retryDelay: int)
    requires RetryIntended(outcomes, maxRetries, retryDelay).attempts == |outcomes|
    ensures forall k :: 0 <= k < |outcomes| ==> RetryIntended(outcomes[..k], maxRetries, retryDelay).Trying?
    ensures forall k :: 0 <= k < |outcomes| - 1 ==> !outcomes[k]
    decreases |outcomes|
  {
    if outcomes != [] {
      var previous := outcomes[..|outcomes| - 1];
      IntendedAttemptsBounded(previous, maxRetries, retryDelay);
      IntendedAttemptsAllReached(previous, maxRetries, retryDelay);
      forall k | 0 <= k < |outcomes|
        ensures RetryIntended(outcomes[..k], maxRetries, retryDelay).Trying?
      {
        if k < |previous| {
          assert outcomes[..k] == previous[..k];
        } else {
          assert outcomes[..k] == previous;
        }
      }
      forall k | 0 <= k < |outcomes| - 1
        ensures !outcomes[k]
      {
        assert outcomes[..k + 1][..k] == outcomes[..k];
      }
    }
  }

  /** The corrected loop agrees with the loop as written until the first
      success: it returns there, and fails the same way when none comes. */
  lemma {:induction false} IntendedAgreesUntilSuccess(outcomes: seq<bool>, maxRetries: int, retryDelay: int)
    requires forall i :: 0 <= i < |outcomes| ==> !outcomes[i]
    ensures var s := Retry(outcomes, maxRetries, retryDelay);
      && (s.Running? ==> RetryIntended(outcomes, maxRetries, retryDelay) == Trying(s.attempts, s.failures))
      && (s.Escaped? ==> RetryIntended(outcomes, maxRetries, retryDelay) == Thrown(s.attempts, s.cause))
    ensures Retry(outcomes, maxRetries, retryDelay).Running? ==>
      RetryIntended(outcomes + [true], maxRetries, retryDelay) == Returned(|outcomes| + 1)
    decreases |outcomes|
  {
    if outcomes != [] {
      IntendedAgreesUntilSuccess(outcomes[..|outcomes| - 1], maxRetries, retryDelay);
    }
    RetryCharacterized(outcomes, maxRetries, retryDelay);
    assert (outcomes + [true])[..|outcomes|] == outcomes;
  }

  /** `k` failures. */
  function Failing(k: nat): (r: seq<bool>)
    ensures |r| == k && forall i :: 0 <= i < k ==> !r[i]
  {
    seq(k, _ => false)
  }

  lemma {:induction false} IntendedFailuresOnly(k: nat, maxRetries: int, retryDelay: int)
    requires retryDelay >= 0
    ensures k <= maxRetries ==> RetryIntended(Failing(k), maxRetries, retryDelay) == Trying(k, k)
    ensures k > maxRetries && maxRetries >= 0 ==>
      RetryIntended(Failing(k), maxRetries, retryDelay) == Thrown(maxRetries + 1, Rethrown)
    ensures k > 0 && maxRetries < 0 ==> RetryIntended(Failing(k), maxRetries, retryDelay) == Thrown(1, Rethrown)
    decreases k
  {
    if k > 0 {
      assert Failing(k)[..k - 1] == Failing(k - 1);
      IntendedFailuresOnly(k - 1, maxRetries, retryDelay);
    }
  }

  /** An action that fails `k` times and then succeeds, with maxRetries = n:
      it succeeds iff k <= n, after exactly k + 1 attempts; otherwise the
      failure surfaces after exactly n + 1 attempts. */
  lemma IntendedRetryBound(k: nat, n: nat, retryDelay: int)
    requires retryDelay >= 0
    ensures k <= n ==> RetryIntended(Failing(k) + [true], n, retryDelay) == Returned(k + 1)
    ensures k > n ==> RetryIntended(Failing(k) + [true], n, retryDelay) == Thrown(n + 1, Rethrown)
  {
    IntendedFailuresOnly(k, n, retryDelay);
    assert (Failing(k) + [true])[..k] == Failing(k);
  }

  /** The loop as written never reports the success of the same scenario:
      after one success, with the default three retries, it is still running. */
  lemma WrittenRetryIgnoresSuccess()
    ensures Retry([true], DefaultMaxRetries, DefaultRetryDelay) == Running(1, 0)
    ensures RetryIntended([true], DefaultMaxRetries, DefaultRetryDelay) == Returned(1)
  {
    assert [true][..0] == [];
  }

  /** `processEvent` with the exit on success: the attempts, each under the
      environment's fault schedule, until one succeeds or the failures run
      out; when the schedule runs out first, the call has not returned. */
  method ProcessEventCorrected(fs: FileSystem, filterPattern: Option<string>, regex: RegexEngine,
                               eventPath: Path, kind: Kind, baseSource: Path, baseTarget: Path, inner: Option<string>,
                               maxRetries: int, retryDelay: int, faults: seq<bool>, ghost step: Step)
    returns (state: IntendedState, ghost outcomes: seq<bool>, ghost sleeps: nat, ghost trees: seq<Tree>)
    requires Describes(step, filterPattern, regex, eventPath, kind, baseSource, baseTarget, inner)
    modifies fs
    ensures state == RetryIntended(outcomes, maxRetries, retryDelay)
    ensures |outcomes| <= |faults|
    ensures state.Trying? ==> |outcomes| == |faults|
    ensures state.attempts == |outcomes|
    ensures forall i :: 0 <= i < |outcomes| && faults[i] ==> !outcomes[i]
    ensures |trees| == |outcomes| + 1 && trees[0] == old(fs.tree) && fs.tree == trees[|outcomes|]
    ensures History(faults, outcomes, trees, step)
    ensures sleeps == if state.Trying? then state.failures else state.attempts - 1
  {
    var attempt := 1;
    var i := 0;
    outcomes, sleeps, trees := [], 0, [fs.tree];
    state := Trying(0, 0);
    while i < |faults|
      invariant 0 <= i <= |faults| && |outcomes| == i
      invariant state == RetryIntended(outcomes, maxRetries, retryDelay) && state.Trying?
      invariant attempt == state.failures + 1 && state.attempts == i && state.failures == i && sleeps == i
      invariant forall j :: 0 <= j < i && faults[j] ==> !outcomes[j]
      invariant |trees| == i + 1 && trees[0] == old(fs.tree) && fs.tree == trees[i]
      invariant History(faults, outcomes, trees, step)
    {
      var succeeded;
      succeeded, outcomes, trees := AttemptUnder(faults[i], fs, filterPattern, regex, eventPath, kind, baseSource, baseTarget, inner, faults, step, outcomes, trees);
      if succeeded {
        return Returned(i + 1), outcomes, sleeps, trees;
      }
      if attempt > maxRetries {
        return Thrown(i + 1, Rethrown), outcomes, sleeps, trees;
      }
      attempt := attempt + 1;
      if retryDelay < 0 {
        return Thrown(i + 1, SleepRejected), outcomes, sleeps, trees;
      }
      // Thread.sleep(retryDelay)
      sleeps := sleeps + 1;
      state := Trying(i + 1, attempt - 1);
      i := i + 1;
    }
  }

  // ---------------------------------------------------------------------
  // Deployment-target discovery

  /** Where JBoss explodes its deployments, below its home directory. */
  const DeploymentDir: Path := ["tmp", "vfs", "deployment"]
  const DeploymentPrefix := "deployment"

  datatype DiscoveryError =
    | NoJbossHome                 // `Paths.get(null, ...)`
    | NotListable(path: Path)     // `File.list` gave null
    | NoDeploymentFolder(path: Path)
    | NoPackagePrefix(path: Path) // `startsWith(null)`
    | NoPackage(path: Path)

  /** `Paths.get(jbossHome, "tmp/vfs/deployment")`. */
  function DeploymentBase(jbossHome: string): Path {
    Split(jbossHome) + DeploymentDir
  }

  /** The deployment folders: the sub-directories whose names start with "deployment". */
  function Candidates(t: Tree, base: Path): set<string> {
    SubdirectoryNames(t, base, DeploymentPrefix)
  }

  function CreatedAt(created: Path -> int, base: Path, name: string): int {
    created(base + [name])
  }

  /** `c` is a deployment folder no other deployment folder was created after. */
  ghost predicate IsLatest(t: Tree, created: Path -> int, base: Path, c: string) {
    c in Candidates(t, base) &&
    forall d :: d in Candidates(t, base) ==> CreatedAt(created, base, d) <= CreatedAt(created, base, c)
  }

  /** `p` is a package folder, whose name starts with `prefix`, inside a
      latest deployment folder. */
  ghost predicate IsDeployedPackage(t: Tree, created: Path -> int, base: Path, prefix: string, p: Path) {
    && |p| == |base| + 2
    && p[..|base|] == base
    && IsLatest(t, created, base, p[|base|])
    && p[|base| + 1] in SubdirectoryNames(t, p[..|base| + 1], prefix)
  }

  /** Position `k` holds the latest creation time, and no earlier position does. */
  ghost predicate FirstLatestAt(created: Path -> int, base: Path, folders: seq<string>, k: int) {
    && 0 <= k < |folders|
    && (forall j :: 0 <= j < |folders| ==> CreatedAt(created, base, folders[j]) <= CreatedAt(created, base, folders[k]))
    && (forall j :: 0 <= j < k ==> CreatedAt(created, base, folders[j]) < CreatedAt(created, base, folders[k]))
  }

  /** `pickMostRecentDeploymentFolder`: the folder created last, the first
      of them in the listing on a tie (the comparison is a strict `>`);
      nothing (null) for an empty listing. */
  method PickMostRecentDeploymentFolder(fs: FileSystem, base: Path, folders: seq<string>) returns (picked: Option<string>)
    ensures picked.None? <==> |folders| == 0
    ensures picked.Some? ==> exists k :: FirstLatestAt(fs.created, base, folders, k) && folders[k] == picked.value
  {
    picked := None;
    var pickedTime := 0;
    ghost var k := 0;
    for i := 0 to |folders|
      invariant picked.None? <==> i == 0
      invariant i > 0 ==>
        && 0 <= k < i && picked == Some(folders[k]) && pickedTime == CreatedAt(fs.created, base, folders[k])
        && (forall j :: 0 <= j < i ==> CreatedAt(fs.created, base, folders[j]) <= pickedTime)
        && (forall j :: 0 <= j < k ==> CreatedAt(fs.created, base, folders[j]) < pickedTime)
    {
      var time := fs.created(base + [folders[i]]);
      if picked.None? {
        picked, pickedTime, k := Some(folders[i]), time, i;
        continue;
      }
      if time > pickedTime {
        picked, pickedTime, k := Some(folders[i]), time, i;
      }
    }
    if picked.Some? {
      assert FirstLatestAt(fs.created, base, folders, k);
    }
  }

  /** The deployment folder `findDeploymentPath` works in: the only one
      listed, or the most recent of several. */
  method ChooseDeploymentFolder(fs: FileSystem, base: Path, directories: seq<string>) returns (picked: string)
    requires |directories| > 0
    requires forall n :: n in directories <==> n in Candidates(fs.tree, base)
    ensures IsLatest(fs.tree, fs.created, base, picked)
  {
    if |directories| > 1 {
      var mostRecent := PickMostRecentDeploymentFolder(fs, base, directories);
      picked := mostRecent.value;
      ghost var k :| FirstLatestAt(fs.created, base, directories, k) && directories[k] == picked;
      forall d | d in Candidates(fs.tree, base)
        ensures CreatedAt(fs.created, base, d) <= CreatedAt(fs.created, base, picked)
      {
        var j :| 0 <= j < |directories| && directories[j] == d;
      }
    } else {
      picked := directories[0];
    }
  }

  /** The package search inside the chosen deployment folder: the first
      listed sub-directory whose name starts with `prefix`. */
  method FindPackage(fs: FileSystem, dir: Path, prefix: string) returns (found: Option<string>)
    requires IsDirectory(fs.tree, dir)
    ensures found.Some? ==> found.value in SubdirectoryNames(fs.tree, dir, prefix)
    ensures found.None? ==> SubdirectoryNames(fs.tree, dir, prefix) == {}
  {
    var packages := fs.ListSubdirectories(dir, "");
    var names := packages.value;
    found := None;
    for i := 0 to |names|
      invariant found.None? ==> forall j :: 0 <= j < i ==> !StartsWith(names[j], prefix)
      invariant found.Some? ==> found.value in SubdirectoryNames(fs.tree, dir, prefix)
    {
      if StartsWith(names[i], prefix) {
        SubdirectoryNamesByPrefix(fs.tree, dir, prefix, names[i]);
        found := Some(names[i]);
        break;
      }
    }
    if found.None? {
      forall n ensures n !in SubdirectoryNames(fs.tree, dir, prefix) {
        SubdirectoryNamesByPrefix(fs.tree, dir, prefix, n);
        if n in names {
          var j :| 0 <= j < |names| && names[j] == n;
        }
      }
    }
  }

  /** `dir` is a latest deployment folder below `base`. */
  ghost predicate InLatestFolder(t: Tree, created: Path -> int, base: Path, dir: Path) {
    |dir| == |base| + 1 && dir[..|base|] == base && IsLatest(t, created, base, dir[|base|])
  }

  /** The disk state each error of `findDeploymentPath` stands for: no JBoss
      home; no listable deployment directory; no deployment folder in it; a
      package search with no prefix in a latest deployment folder that has
      sub-directories (the first `startsWith(null)` throws); or a latest
      deployment folder with no sub-directory starting with the prefix. */
  ghost predicate DiscoveryFails(t: Tree, created: Path -> int, jbossHome: Option<string>, prefix: Option<string>,
                                 e: DiscoveryError)
  {
    match e
    case NoJbossHome => jbossHome.None?
    case NotListable(base) =>
      jbossHome.Some? && base == DeploymentBase(jbossHome.value) && !IsDirectory(t, base)
    case NoDeploymentFolder(base) =>
      jbossHome.Some? && base == DeploymentBase(jbossHome.value) && IsDirectory(t, base) && Candidates(t, base) == {}
    case NoPackagePrefix(dir) =>
      && jbossHome.Some? && prefix.None?
      && InLatestFolder(t, created, DeploymentBase(jbossHome.value), dir)
      && SubdirectoryNames(t, dir, "") != {}
    case NoPackage(dir) =>
      && jbossHome.Some?
      && InLatestFolder(t, created, DeploymentBase(jbossHome.value), dir)
      && SubdirectoryNames(t, dir, if prefix.Some? then prefix.value else "") == {}
  }

  /** `findDeploymentPath`: the deployment folders below the JBoss home, one
      of them chosen (the only one, or the latest), and inside it a package
      folder whose name starts with `prefix` (the first one listed). */
  method FindDeploymentPath(fs: FileSystem, jbossHome: Option<string>, prefix: Option<string>)
    returns (r: Result<Path, DiscoveryError>)
    ensures jbossHome.None? ==> r == Failure(NoJbossHome)
    ensures jbossHome.Some? && !IsDirectory(fs.tree, DeploymentBase(jbossHome.value)) ==>
      r == Failure(NotListable(DeploymentBase(jbossHome.value)))
    ensures jbossHome.Some? && IsDirectory(fs.tree, DeploymentBase(jbossHome.value)) &&
            Candidates(fs.tree, DeploymentBase(jbossHome.value)) == {} ==>
      r == Failure(NoDeploymentFolder(DeploymentBase(jbossHome.value)))
    ensures r.Success? ==>
      (jbossHome.Some? && prefix.Some? &&
       IsDeployedPackage(fs.tree, fs.created, DeploymentBase(jbossHome.value), prefix.value, r.value))
    ensures jbossHome.Some? && IsDirectory(fs.tree, DeploymentBase(jbossHome.value)) &&
            Candidates(fs.tree, DeploymentBase(jbossHome.value)) != {} ==>
      r.Success? || r.error.NoPackagePrefix? || r.error.NoPackage?
    ensures r.Failure? ==> DiscoveryFails(fs.tree, fs.created, jbossHome, prefix, r.error)
    ensures prefix.None? ==> r.Failure?
  {
    if jbossHome.None? {
      return Failure(NoJbossHome);
    }
    var base := DeploymentBase(jbossHome.value);
    var listed := fs.ListSubdirectories(base, DeploymentPrefix);
    if listed.None? {
      return Failure(NotListable(base));
    }
    var directories := listed.value;
    if |directories| < 1 {
      return Failure(NoDeploymentFolder(base));
    }
    var picked := ChooseDeploymentFolder(fs, base, directories);

    var dir := base + [picked];
    SubdirectoryNamed(fs.tree, base, DeploymentPrefix, picked);
    assert dir[..|base|] == base && dir[|base|] == picked && dir[..|dir| - 1] == base;

    if prefix.None? {
      var packages := fs.ListSubdirectories(dir, "");
      if |packages.value| > 0 {
        assert packages.value[0] in SubdirectoryNames(fs.tree, dir, "");
        return Failure(NoPackagePrefix(dir));
      }
      return Failure(NoPackage(dir));
    }

    var found := FindPackage(fs, dir, prefix.value);
    if found.None? {
      return Failure(NoPackage(dir));
    }
    r := Success(dir + [found.value]);
    assert r.value[..|base|] == base && r.value[..|base| + 1] == dir;
  }
}
