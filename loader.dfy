/**
 * `EngineLoader.loadEngines`: the ini file's sections are split into the
 * shared fallback section and one section per instance, and every instance
 * is configured from the command line, its own section and the fallback.
 */
module EngineLoader {
  import opened Wrappers
  import opened Integers
  import opened Logging
  import opened Configuration

  /** One section of the ini file, by name, in file order. */
  datatype IniSection = IniSection(name: string, values: Section)

  /** The names that make a section the shared fallback instead of an instance. */
  predicate IsFallbackName(name: string) {
    name == "config" || name == "default" || name == "root"
  }

  /** The sections that define instances, in file order. */
  function InstanceSections(sections: seq<IniSection>): seq<Section>
    decreases |sections|
  {
    if sections == [] then []
    else
      var last := sections[|sections| - 1];
      InstanceSections(sections[..|sections| - 1]) + (if IsFallbackName(last.name) then [] else [last.values])
  }

  function FallbackCount(sections: seq<IniSection>): nat
    decreases |sections|
  {
    if sections == [] then 0
    else FallbackCount(sections[..|sections| - 1]) + (if IsFallbackName(sections[|sections| - 1].name) then 1 else 0)
  }

  /** Every section is either the fallback or exactly one instance. */
  lemma {:induction false} EverySectionCounted(sections: seq<IniSection>)
    ensures |InstanceSections(sections)| + FallbackCount(sections) == |sections|
    decreases |sections|
  {
    if sections != [] {
      EverySectionCounted(sections[..|sections| - 1]);
    }
  }

  /** Splitting the file anywhere splits its instances there: the instances
      keep the file's order. */
  lemma {:induction false} InstanceSectionsAppend(a: seq<IniSection>, b: seq<IniSection>)
    ensures InstanceSections(a + b) == InstanceSections(a) + InstanceSections(b)
    decreases |b|
  {
    if b == [] {
      assert a + b == a;
    } else {
      var init := b[..|b| - 1];
      assert (a + b)[..|a + b| - 1] == a + init;
      InstanceSectionsAppend(a, init);
    }
  }

  /** The loop over `ini.values()`: fallback sections replace one another, so
      the last one wins; every other section is appended in order. */
  method PartitionSections(sections: seq<IniSection>) returns (nodes: seq<Section>, fallback: Option<Section>)
    ensures nodes == InstanceSections(sections)
    ensures fallback.None? <==> forall i :: 0 <= i < |sections| ==> !IsFallbackName(sections[i].name)
    ensures fallback.Some? ==> exists i ::
      && 0 <= i < |sections| && IsFallbackName(sections[i].name) && fallback.value == sections[i].values
      && forall j :: i < j < |sections| ==> !IsFallbackName(sections[j].name)
  {
    nodes, fallback := [], None;
    ghost var at := 0;
    for i := 0 to |sections|
      invariant nodes == InstanceSections(sections[..i])
      invariant fallback.None? <==> forall j :: 0 <= j < i ==> !IsFallbackName(sections[j].name)
      invariant fallback.Some? ==>
        && 0 <= at < i && IsFallbackName(sections[at].name) && fallback.value == sections[at].values
        && forall j :: at < j < i ==> !IsFallbackName(sections[j].name)
    {
      assert sections[..i + 1][..i] == sections[..i];
      if IsFallbackName(sections[i].name) {
        fallback := Some(sections[i].values);
        at := i;
      } else {
        nodes := nodes + [sections[i].values];
      }
    }
    assert sections[..|sections|] == sections;
  }

  /** A setting as the configuration of the instance over `node` reads it. */
  function SettingOf(cmd: CommandLine, node: Section, fallback: Option<Section>, key: string): Option<string> {
    ReadFromPrioritizedSource(cmd, Some(node), fallback, key, None)
  }

  /** The name a reload gives the instance over `node` when the shared
      counter holds `index`: its `name` setting, else `I` and the number. */
  function NameFrom(cmd: CommandLine, node: Section, fallback: Option<Section>, index: int): string {
    var named := SettingOf(cmd, node, fallback, NameKey);
    if named.Some? then named.value else "I" + IntToString(index)
  }

  /** The shared counter after reloading the first `k` instances over
      `nodes` in order, starting from `index`: each unnamed instance takes
      one number. */
  function IndexUpTo(cmd: CommandLine, nodes: seq<Section>, fallback: Option<Section>, index: int, k: nat): (r: int)
    requires InInt32(index) && k <= |nodes|
    ensures InInt32(r)
    decreases k
  {
    if k == 0 then index
    else
      var before := IndexUpTo(cmd, nodes, fallback, index, k - 1);
      if SettingOf(cmd, nodes[k - 1], fallback, NameKey).Some? then before else Increment(before)
  }

  /** The name of the `i`-th instance when the counter starts at `index`. */
  function NameAt(cmd: CommandLine, nodes: seq<Section>, fallback: Option<Section>, index: int, i: nat): string
    requires InInt32(index) && i < |nodes|
  {
    NameFrom(cmd, nodes[i], fallback, IndexUpTo(cmd, nodes, fallback, index, i))
  }

  /** Does the instance over `node` set the process-wide log filter? */
  predicate SetsLevel(cmd: CommandLine, node: Section, fallback: Option<Section>) {
    var code := SettingOf(cmd, node, fallback, LogLevelKey);
    code.Some? && LevelFromCode(code.value).Some?
  }

  function LevelSet(cmd: CommandLine, node: Section, fallback: Option<Section>): LogLevel
    requires SetsLevel(cmd, node, fallback)
  {
    LevelFromCode(SettingOf(cmd, node, fallback, LogLevelKey).value).value
  }

  /** The log filter after reloading the first `k` instances over `nodes` in
      order, starting from `level`: the filter is one for the whole process,
      so the last instance that sets it wins. */
  function FilterUpTo(cmd: CommandLine, nodes: seq<Section>, fallback: Option<Section>, level: LogLevel, k: nat): LogLevel
    requires k <= |nodes|
    decreases k
  {
    if k == 0 then level
    else if SetsLevel(cmd, nodes[k - 1], fallback) then LevelSet(cmd, nodes[k - 1], fallback)
    else FilterUpTo(cmd, nodes, fallback, level, k - 1)
  }

  /** When none of the first `k` instances sets a level, the filter stays
      as it was. */
  lemma {:induction false} FilterUnset(cmd: CommandLine, nodes: seq<Section>, fallback: Option<Section>, level: LogLevel, k: nat)
    requires k <= |nodes|
    requires forall i :: 0 <= i < k ==> !SetsLevel(cmd, nodes[i], fallback)
    ensures FilterUpTo(cmd, nodes, fallback, level, k) == level
    decreases k
  {
    if k > 0 {
      FilterUnset(cmd, nodes, fallback, level, k - 1);
    }
  }

  /** Otherwise the filter is the level of the last instance that sets one. */
  lemma {:induction false} FilterIsLastSet(cmd: CommandLine, nodes: seq<Section>, fallback: Option<Section>, level: LogLevel, k: nat, i: nat)
    requires i < k <= |nodes| && SetsLevel(cmd, nodes[i], fallback)
    requires forall j :: i < j < k ==> !SetsLevel(cmd, nodes[j], fallback)
    ensures FilterUpTo(cmd, nodes, fallback, level, k) == LevelSet(cmd, nodes[i], fallback)
    decreases k
  {
    if i < k - 1 {
      assert !SetsLevel(cmd, nodes[k - 1], fallback);
      FilterIsLastSet(cmd, nodes, fallback, level, k - 1, i);
    }
  }

  /** How many of the first `k` instances have no `name` setting. */
  function UnnamedUpTo(cmd: CommandLine, nodes: seq<Section>, fallback: Option<Section>, k: nat): nat
    requires k <= |nodes|
    decreases k
  {
    if k == 0 then 0
    else UnnamedUpTo(cmd, nodes, fallback, k - 1) +
         (if SettingOf(cmd, nodes[k - 1], fallback, NameKey).Some? then 0 else 1)
  }

  /** Away from the 32-bit wrap-around the counter advances by the number
      of unnamed instances. */
  lemma {:induction false} IndexCountsUnnamed(cmd: CommandLine, nodes: seq<Section>, fallback: Option<Section>, index: int, k: nat)
    requires InInt32(index) && k <= |nodes| && index + k <= MaxInt32
    ensures IndexUpTo(cmd, nodes, fallback, index, k) == index + UnnamedUpTo(cmd, nodes, fallback, k)
    ensures UnnamedUpTo(cmd, nodes, fallback, k) <= k
    decreases k
  {
    if k > 0 {
      IndexCountsUnnamed(cmd, nodes, fallback, index, k - 1);
    }
  }

  /** More instances have at least as many unnamed ones among them. */
  lemma {:induction false} UnnamedMonotone(cmd: CommandLine, nodes: seq<Section>, fallback: Option<Section>, i: nat, j: nat)
    requires i <= j <= |nodes|
    ensures UnnamedUpTo(cmd, nodes, fallback, i) <= UnnamedUpTo(cmd, nodes, fallback, j)
    decreases j - i
  {
    if i < j {
      UnnamedMonotone(cmd, nodes, fallback, i, j - 1);
    }
  }

  /** Unnamed instances are numbered in file order, so no two get the same
      name while the counter does not wrap around. */
  lemma UnnamedNamesDistinct(cmd: CommandLine, nodes: seq<Section>, fallback: Option<Section>, index: int, i: nat, j: nat)
    requires InInt32(index) && index + |nodes| <= MaxInt32
    requires i < j < |nodes|
    requires SettingOf(cmd, nodes[i], fallback, NameKey).None? && SettingOf(cmd, nodes[j], fallback, NameKey).None?
    ensures IndexUpTo(cmd, nodes, fallback, index, i) < IndexUpTo(cmd, nodes, fallback, index, j)
    ensures NameAt(cmd, nodes, fallback, index, i) != NameAt(cmd, nodes, fallback, index, j)
  {
    IndexCountsUnnamed(cmd, nodes, fallback, index, i);
    IndexCountsUnnamed(cmd, nodes, fallback, index, j);
    UnnamedMonotone(cmd, nodes, fallback, i + 1, j);
    var m := IndexUpTo(cmd, nodes, fallback, index, i);
    var n := IndexUpTo(cmd, nodes, fallback, index, j);
    PrintedIsInjective(m, n);
    assert IntToString(m) == NameAt(cmd, nodes, fallback, index, i)[1..];
    assert IntToString(n) == NameAt(cmd, nodes, fallback, index, j)[1..];
  }

  /** An instance configured by a successful reload of a fresh configuration
      built over `node`: every setting holds what the sources say, and the
      instance is called `name`. */
  ghost predicate Configured(p: ConfigurationProvider, cmd: CommandLine, node: Section, fallback: Option<Section>, name: string)
    reads p
  {
    && p.cmdLine == cmd && p.node == Some(node) && p.fallback == fallback
    && p.LocationsRead() && p.TuningRead(None, true)
    && p.sourceFolder.Some? && p.maxRetries.Some? && p.retryDelay.Some?
    && p.name == Some(name)
  }

  /** One turn of the loop: `new ConfigurationProvider(...)` and its `reload()`.
      The counter and the log filter it shares with the other instances move
      as the reload says, whether or not the reload succeeds. */
  method ConfigureOne(cmd: CommandLine, node: Section, fallback: Option<Section>,
                      counter: NameCounter, logger: Logger, regex: RegexEngine)
    returns (r: Result<ConfigurationProvider, ConfigError>)
    requires counter.Valid()
    modifies counter, logger
    ensures counter.Valid()
    ensures r.Success? <==> ReloadError(cmd, Some(node), fallback, regex).None?
    ensures r.Failure? ==> Some(r.error) == ReloadError(cmd, Some(node), fallback, regex)
    ensures r.Success? ==> fresh(r.value) && Configured(r.value, cmd, node, fallback, NameFrom(cmd, node, fallback, old(counter.index)))
    // a missing source fails before the counter is looked at; otherwise an
    // unnamed instance takes a number even when a later setting is refused
    ensures SettingOf(cmd, node, fallback, SourceKey).None? ==> r.Failure? && unchanged(counter, logger)
    ensures SettingOf(cmd, node, fallback, SourceKey).Some? || r.Success? ==>
      counter.index == if SettingOf(cmd, node, fallback, NameKey).Some? then old(counter.index) else Increment(old(counter.index))
    ensures r.Success? ==>
      logger.filterLevel == (if SetsLevel(cmd, node, fallback) then LevelSet(cmd, node, fallback) else old(logger.filterLevel))
  {
    var cfg := new ConfigurationProvider(cmd, Some(node), fallback);
    var reloaded := cfg.Reload(counter, logger, regex);
    if reloaded.Fail? {
      return Failure(reloaded.error);
    }
    r := Success(cfg);
  }

  /** Is every one of the first `k` instances accepted by its reload? */
  ghost predicate AcceptedUpTo(cmd: CommandLine, nodes: seq<Section>, fallback: Option<Section>, regex: RegexEngine, k: nat)
    requires k <= |nodes|
    decreases k
  {
    k == 0 || (AcceptedUpTo(cmd, nodes, fallback, regex, k - 1) && ReloadError(cmd, Some(nodes[k - 1]), fallback, regex).None?)
  }

  lemma {:induction false} AcceptedEach(cmd: CommandLine, nodes: seq<Section>, fallback: Option<Section>, regex: RegexEngine, k: nat)
    requires k <= |nodes| && AcceptedUpTo(cmd, nodes, fallback, regex, k)
    ensures forall j :: 0 <= j < k ==> ReloadError(cmd, Some(nodes[j]), fallback, regex).None?
    decreases k
  {
    if k > 0 {
      AcceptedEach(cmd, nodes, fallback, regex, k - 1);
    }
  }

  /** One more turn of the loop moves each of the running values on by the
      reload of `nodes[i]`. */
  lemma UpToNext(cmd: CommandLine, nodes: seq<Section>, fallback: Option<Section>, regex: RegexEngine,
                 index: int, level: LogLevel, i: nat)
    requires InInt32(index) && i < |nodes|
    ensures AcceptedUpTo(cmd, nodes, fallback, regex, i + 1) <==>
      AcceptedUpTo(cmd, nodes, fallback, regex, i) && ReloadError(cmd, Some(nodes[i]), fallback, regex).None?
    ensures IndexUpTo(cmd, nodes, fallback, index, i + 1) ==
      if SettingOf(cmd, nodes[i], fallback, NameKey).Some? then IndexUpTo(cmd, nodes, fallback, index, i)
      else Increment(IndexUpTo(cmd, nodes, fallback, index, i))
    ensures FilterUpTo(cmd, nodes, fallback, level, i + 1) ==
      if SetsLevel(cmd, nodes[i], fallback) then LevelSet(cmd, nodes[i], fallback) else FilterUpTo(cmd, nodes, fallback, level, i)
    ensures NameAt(cmd, nodes, fallback, index, i) == NameFrom(cmd, nodes[i], fallback, IndexUpTo(cmd, nodes, fallback, index, i))
  {
  }

  /** What the first `k` turns of the loop have built: one configured
      instance per section, named in order, with the shared counter and log
      filter moved on by each reload. */
  ghost predicate BuiltUpTo(instances: seq<ConfigurationProvider>, cmd: CommandLine, nodes: seq<Section>, fallback: Option<Section>,
                            regex: RegexEngine, counter: NameCounter, logger: Logger, index: int, level: LogLevel, k: nat)
    reads instances, counter, logger
    requires InInt32(index)
  {
    && k <= |nodes| && |instances| == k
    && AcceptedUpTo(cmd, nodes, fallback, regex, k)
    && (forall j {:trigger instances[j]} :: 0 <= j < k ==>
          Configured(instances[j], cmd, nodes[j], fallback, NameAt(cmd, nodes, fallback, index, j)))
    && counter.Valid() && counter.index == IndexUpTo(cmd, nodes, fallback, index, k)
    && logger.filterLevel == FilterUpTo(cmd, nodes, fallback, level, k)
  }

  /** The `i`-th turn of the loop: the instance over `nodes[i]` is built and
      appended, or its reload's error ends the loop. */
  method ConfigureNext(cmd: CommandLine, nodes: seq<Section>, fallback: Option<Section>, i: nat,
                       counter: NameCounter, logger: Logger, regex: RegexEngine,
                       instances: seq<ConfigurationProvider>, ghost index: int, ghost level: LogLevel)
    returns (r: Result<seq<ConfigurationProvider>, ConfigError>)
    requires i < |nodes| && InInt32(index)
    requires BuiltUpTo(instances, cmd, nodes, fallback, regex, counter, logger, index, level, i)
    modifies counter, logger
    ensures counter.Valid()
    ensures r.Success? ==> BuiltUpTo(r.value, cmd, nodes, fallback, regex, counter, logger, index, level, i + 1)
    ensures r.Failure? ==>
      && AcceptedUpTo(cmd, nodes, fallback, regex, i) && Some(r.error) == ReloadError(cmd, Some(nodes[i]), fallback, regex)
  {
    UpToNext(cmd, nodes, fallback, regex, index, level, i);
    var cfg := ConfigureOne(cmd, nodes[i], fallback, counter, logger, regex);
    if cfg.Failure? {
      return Failure(cfg.error);
    }
    r := Success(instances + [cfg.value]);
    assert r.value[i] == cfg.value;
  }

  /** The loop that builds the instances: one configuration per section, all
      sharing the command line and the fallback, reloaded in order; the
      first reload that throws aborts the whole load. */
  method ConfigureInstances(cmd: CommandLine, nodes: seq<Section>, fallback: Option<Section>,
                            counter: NameCounter, logger: Logger, regex: RegexEngine)
    returns (r: Result<seq<ConfigurationProvider>, ConfigError>)
    requires counter.Valid()
    modifies counter, logger
    ensures counter.Valid()
    ensures r.Success? ==>
      && |r.value| == |nodes|
      && (forall i :: 0 <= i < |nodes| ==> ReloadError(cmd, Some(nodes[i]), fallback, regex).None?)
      && (forall i :: 0 <= i < |nodes| ==>
            Configured(r.value[i], cmd, nodes[i], fallback, NameAt(cmd, nodes, fallback, old(counter.index), i)))
      && counter.index == IndexUpTo(cmd, nodes, fallback, old(counter.index), |nodes|)
      && logger.filterLevel == FilterUpTo(cmd, nodes, fallback, old(logger.filterLevel), |nodes|)
    ensures r.Failure? ==> exists i ::
      && 0 <= i < |nodes| && ReloadError(cmd, Some(nodes[i]), fallback, regex) == Some(r.error)
      && forall j :: 0 <= j < i ==> ReloadError(cmd, Some(nodes[j]), fallback, regex).None?
  {
    var instances: seq<ConfigurationProvider> := [];
    for i := 0 to |nodes|
      invariant BuiltUpTo(instances, cmd, nodes, fallback, regex, counter, logger, old(counter.index), old(logger.filterLevel), i)
    {
      var next := ConfigureNext(cmd, nodes, fallback, i, counter, logger, regex, instances, old(counter.index), old(logger.filterLevel));
      if next.Failure? {
        AcceptedEach(cmd, nodes, fallback, regex, i);
        return Failure(next.error);
      }
      instances := next.value;
    }
    AcceptedEach(cmd, nodes, fallback, regex, |nodes|);
    r := Success(instances);
  }

  /** `loadEngines`: no ini file means no instances; otherwise the sections
      are partitioned and every instance configured. */
  method LoadEngines(iniFile: Option<seq<IniSection>>, cmd: CommandLine,
                     counter: NameCounter, logger: Logger, regex: RegexEngine)
    returns (r: Result<seq<ConfigurationProvider>, ConfigError>)
    requires counter.Valid()
    modifies counter, logger
    ensures counter.Valid()
    ensures iniFile.None? ==> r == Success([]) && unchanged(counter, logger)
    ensures iniFile.Some? && r.Success? ==>
      && |r.value| == |InstanceSections(iniFile.value)|
      && (forall i :: 0 <= i < |r.value| ==>
            Configured(r.value[i], cmd, InstanceSections(iniFile.value)[i], FallbackOf(iniFile.value),
                       NameAt(cmd, InstanceSections(iniFile.value), FallbackOf(iniFile.value), old(counter.index), i)))
      && counter.index == IndexUpTo(cmd, InstanceSections(iniFile.value), FallbackOf(iniFile.value), old(counter.index), |InstanceSections(iniFile.value)|)
      && logger.filterLevel == FilterUpTo(cmd, InstanceSections(iniFile.value), FallbackOf(iniFile.value), old(logger.filterLevel), |InstanceSections(iniFile.value)|)
    ensures iniFile.Some? ==>
      (r.Failure? <==> exists i :: 0 <= i < |InstanceSections(iniFile.value)| &&
                                   ReloadError(cmd, Some(InstanceSections(iniFile.value)[i]), FallbackOf(iniFile.value), regex).Some?)
    ensures r.Failure? ==> iniFile.Some? && exists i ::
      && 0 <= i < |InstanceSections(iniFile.value)|
      && ReloadError(cmd, Some(InstanceSections(iniFile.value)[i]), FallbackOf(iniFile.value), regex) == Some(r.error)
      && forall j :: 0 <= j < i ==> ReloadError(cmd, Some(InstanceSections(iniFile.value)[j]), FallbackOf(iniFile.value), regex).None?
  {
    if iniFile.None? {
      return Success([]);
    }
    var nodes, fallback := PartitionSections(iniFile.value);
    FallbackIsLast(iniFile.value, fallback);
    r := ConfigureInstances(cmd, nodes, fallback, counter, logger, regex);
  }

  /** The fallback section: the last one with a fallback name. */
  function FallbackOf(sections: seq<IniSection>): Option<Section>
    decreases |sections|
  {
    if sections == [] then None
    else if IsFallbackName(sections[|sections| - 1].name) then Some(sections[|sections| - 1].values)
    else FallbackOf(sections[..|sections| - 1])
  }

  /** What the partitioning loop keeps as the fallback is `FallbackOf`. */
  lemma {:induction false} FallbackIsLast(sections: seq<IniSection>, fallback: Option<Section>)
    requires fallback.None? <==> forall i :: 0 <= i < |sections| ==> !IsFallbackName(sections[i].name)
    requires fallback.Some? ==> exists i ::
      && 0 <= i < |sections| && IsFallbackName(sections[i].name) && fallback.value == sections[i].values
      && forall j :: i < j < |sections| ==> !IsFallbackName(sections[j].name)
    ensures fallback == FallbackOf(sections)
    decreases |sections|
  {
    if sections != [] {
      var init := sections[..|sections| - 1];
      if !IsFallbackName(sections[|sections| - 1].name) {
        if fallback.Some? {
          var i :| 0 <= i < |sections| && IsFallbackName(sections[i].name) && fallback.value == sections[i].values
            && forall j :: i < j < |sections| ==> !IsFallbackName(sections[j].name);
          assert init[i] == sections[i];
        } else {
          assert forall i :: 0 <= i < |init| ==> init[i] == sections[i];
        }
        FallbackIsLast(init, fallback);
      } else if fallback.Some? {
        var i :| 0 <= i < |sections| && IsFallbackName(sections[i].name) && fallback.value == sections[i].values
          && forall j :: i < j < |sections| ==> !IsFallbackName(sections[j].name);
        assert i == |sections| - 1;
      }
    }
  }
}
