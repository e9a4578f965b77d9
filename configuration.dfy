/**
 * Resolution of one instance's settings: every key is looked up on the
 * command line first, then in the instance's own ini section, then in the
 * shared fallback section; `Reload` then normalises, defaults and checks the
 * values in a fixed order, numbering unnamed instances from a process-wide
 * counter and changing the process-wide log level as a side effect.
 */
module Configuration {
  import opened Wrappers
  import opened Integers
  import opened Logging

  /** The parsed command line: each option given, by long name, with its value. */
  type CommandLine = map<string, string>

  /** One ini section, read as a preferences node. */
  type Section = map<string, string>

  const SourceKey := "source"
  const JbossHomeKey := "jbossHome"
  const DestSubKey := "destSub"
  const PackagePrefixKey := "destPackagePrefix"
  const RecursiveKey := "recursive"
  const FilterKey := "filter"
  const LogLevelKey := "logLevel"
  const NameKey := "name"
  const FixedTargetKey := "fixedTarget"
  const WatchFromKey := "watchFrom"
  const MaxRetriesKey := "maxRetries"
  const RetryDelayKey := "retryDelay"
  const DeployModeKey := "deployMode"

  const Jboss4Mode := "jboss4"
  const DefaultMaxRetries := 3
  const DefaultRetryDelay := 100

  datatype ConfigError =
    | MissingSource
    | BadNumber(key: string, text: string)
    | BadFilter(pattern: string)
    | BadLogLevel(code: string)

  /** `java.util.regex`, left opaque: which patterns compile, and whether a
      compiled pattern occurs somewhere in a text (`Matcher.find`). */
  datatype RegexEngine = RegexEngine(compiles: string -> bool, find: (string, string) -> bool)

  /** `readFromPrioritizedSource(key, def)`. Note that `def` is returned when
      there is no instance node, or when the fallback node lacks the key too,
      but not when there is no fallback node. */
  function ReadFromPrioritizedSource(cmd: CommandLine, node: Option<Section>, fallback: Option<Section>,
                                     key: string, def: Option<string>): Option<string>
  {
    if key in cmd then Some(cmd[key])
    else if node.None? then def
    else if key in node.value then Some(node.value[key])
    else if fallback.Some? then (if key in fallback.value then Some(fallback.value[key]) else def)
    else None
  }

  /** The value of `key` in the first layer that has it. */
  function FirstPresent(layers: seq<map<string, string>>, key: string): Option<string>
    decreases |layers|
  {
    if layers == [] then None
    else if key in layers[0] then Some(layers[0][key])
    else FirstPresent(layers[1..], key)
  }

  function Layers(cmd: CommandLine, node: Section, fallback: Option<Section>): seq<map<string, string>> {
    [cmd, node] + (if fallback.Some? then [fallback.value] else [])
  }

  /** Lookups without a default, as `reload` makes them, take the value from
      the first of command line, instance section and fallback section that
      has the key. */
  lemma LookupIsLayered(cmd: CommandLine, node: Section, fallback: Option<Section>, key: string)
    ensures ReadFromPrioritizedSource(cmd, Some(node), fallback, key, None) == FirstPresent(Layers(cmd, node, fallback), key)
  {
    var layers := Layers(cmd, node, fallback);
    var rest := if fallback.Some? then [fallback.value] else [];
    assert layers[1..] == [node] + rest;
    assert layers[1..][1..] == rest;
    assert FirstPresent(rest, key) == (if fallback.Some? && key in fallback.value then Some(fallback.value[key]) else None) by {
      if fallback.Some? {
        assert rest[1..] == [];
      }
    }
  }

  /** Without an instance node the command line or `def` answers; a command-line
      value wins whatever the sections say. */
  lemma LookupEdges(cmd: CommandLine, node: Option<Section>, fallback: Option<Section>, key: string, def: Option<string>)
    ensures key in cmd ==> ReadFromPrioritizedSource(cmd, node, fallback, key, def) == Some(cmd[key])
    ensures key !in cmd && node.None? ==> ReadFromPrioritizedSource(cmd, node, fallback, key, def) == def
    ensures key !in cmd && node.Some? && key !in node.value && fallback.None? ==>
      ReadFromPrioritizedSource(cmd, node, fallback, key, def) == None
  {
  }

  /** `if (v != null && "".equals(v)) v = null`. */
  function EmptyAsNull(v: Option<string>): (r: Option<string>)
    ensures r.None? <==> v.None? || v.value == ""
    ensures r.Some? ==> r == v
  {
    if v == Some("") then None else v
  }

  /** A numeric setting: a missing or empty value takes the default, anything
      else goes through `Integer.valueOf`. */
  function IntSetting(key: string, raw: Option<string>, default: int): (r: Result<int, ConfigError>)
    ensures EmptyAsNull(raw).None? ==> r == Success(default)
    ensures EmptyAsNull(raw).Some? ==>
      (r.Success? <==> ParseInt(raw.value).Some?) &&
      (r.Success? ==> r.value == ParseInt(raw.value).value) &&
      (r.Failure? ==> r.error == BadNumber(key, raw.value))
  {
    match EmptyAsNull(raw)
    case None => Success(default)
    case Some(text) =>
      match ParseInt(text)
      case Some(n) => Success(n)
      case None => Failure(BadNumber(key, text))
  }

  /** A number written back the way Java prints it is read as that number. */
  lemma IntSettingReadsPrinted(key: string, n: int, default: int)
    requires InInt32(n)
    ensures IntSetting(key, Some(IntToString(n)), default) == Success(n)
  {
    ParsePrinted(n);
    assert IntToString(n) != "";
  }

  function LowerAscii(c: char): char {
    if 'A' <= c <= 'Z' then c - 'A' + 'a' else c
  }

  /** `String.equalsIgnoreCase` for text compared with a lower-case ASCII word. */
  predicate EqualsIgnoreCase(s: string, word: string) {
    |s| == |word| && forall i :: 0 <= i < |s| ==> s[i] == word[i] || LowerAscii(s[i]) == word[i]
  }

  /** The `recursive` setting: unchanged when absent, else true exactly for "true" in any case. */
  function RecursiveSetting(raw: Option<string>, current: bool): bool {
    if raw.None? then current else EqualsIgnoreCase(raw.value, "true")
  }

  /** "true" is accepted in every mix of upper and lower case, and nothing else is. */
  lemma RecursiveSpellings(s: string, current: bool)
    ensures RecursiveSetting(Some(s), current) <==>
      |s| == 4 && forall i :: 0 <= i < 4 ==> s[i] == "true"[i] || s[i] == "TRUE"[i]
  {
    if |s| == 4 {
      forall i | 0 <= i < 4
        ensures (s[i] == "true"[i] || LowerAscii(s[i]) == "true"[i]) <==> (s[i] == "true"[i] || s[i] == "TRUE"[i])
      {
      }
    }
  }

  /** A filter is compiled only when it is given and not empty. */
  predicate HasFilter(filter: Option<string>) {
    filter.Some? && filter.value != ""
  }

  /** The checks `reload` makes, in its order: the first one that fails is
      the exception it throws. */
  function ReloadError(cmd: CommandLine, node: Option<Section>, fallback: Option<Section>, regex: RegexEngine): Option<ConfigError> {
    var read := key => ReadFromPrioritizedSource(cmd, node, fallback, key, None);
    if read(SourceKey).None? then Some(MissingSource)
    else if IntSetting(MaxRetriesKey, read(MaxRetriesKey), DefaultMaxRetries).Failure? then
      Some(IntSetting(MaxRetriesKey, read(MaxRetriesKey), DefaultMaxRetries).error)
    else if IntSetting(RetryDelayKey, read(RetryDelayKey), DefaultRetryDelay).Failure? then
      Some(IntSetting(RetryDelayKey, read(RetryDelayKey), DefaultRetryDelay).error)
    else if HasFilter(read(FilterKey)) && !regex.compiles(read(FilterKey).value) then
      Some(BadFilter(read(FilterKey).value))
    else if read(LogLevelKey).Some? && LevelFromCode(read(LogLevelKey).value).None? then
      Some(BadLogLevel(read(LogLevelKey).value))
    else None
  }

  /** A configuration without a source folder is refused whatever else it
      says; one whose every setting is well formed is accepted. */
  lemma ReloadErrorCases(cmd: CommandLine, node: Option<Section>, fallback: Option<Section>, regex: RegexEngine)
    ensures var read := key => ReadFromPrioritizedSource(cmd, node, fallback, key, None);
      && (read(SourceKey).None? <==> ReloadError(cmd, node, fallback, regex) == Some(MissingSource))
      && (ReloadError(cmd, node, fallback, regex).None? <==>
            && read(SourceKey).Some?
            && IntSetting(MaxRetriesKey, read(MaxRetriesKey), DefaultMaxRetries).Success?
            && IntSetting(RetryDelayKey, read(RetryDelayKey), DefaultRetryDelay).Success?
            && (HasFilter(read(FilterKey)) ==> regex.compiles(read(FilterKey).value))
            && (read(LogLevelKey).Some? ==> read(LogLevelKey).value in Codes))
  {
  }

  /** The static `instanceIndex` that numbers unnamed instances. */
  class NameCounter {
    var index: int

    ghost predicate Valid()
      reads this
    {
      InInt32(index)
    }

    constructor ()
      ensures Valid() && index == 0
    {
      index := 0;
    }
  }

  /** One instance's settings. The three sources are fixed at construction;
      the fields are filled in by `Reload`. */
  class ConfigurationProvider {
    const cmdLine: CommandLine
    const node: Option<Section>
    const fallback: Option<Section>

    var sourceFolder: Option<string>
    var jbossHome: Option<string>
    var packagePrefix: Option<string>
    var deployedSubpath: Option<string>
    var recursive: bool
    var filter: Option<string>
    var name: Option<string>
    var filterPattern: Option<string>
    var fixedTarget: Option<string>
    var watchFrom: Option<string>
    var maxRetries: Option<int>
    var retryDelay: Option<int>
    var deployMode: Option<string>

    constructor (cmdLine: CommandLine, node: Option<Section>, fallback: Option<Section>)
      ensures this.cmdLine == cmdLine && this.node == node && this.fallback == fallback
      ensures sourceFolder == jbossHome == packagePrefix == deployedSubpath == None
      ensures filter == name == filterPattern == fixedTarget == watchFrom == deployMode == None
      ensures maxRetries == retryDelay == None
      ensures recursive
    {
      this.cmdLine := cmdLine;
      this.node := node;
      this.fallback := fallback;
      sourceFolder, jbossHome, packagePrefix, deployedSubpath := None, None, None, None;
      filter, name, filterPattern, fixedTarget, watchFrom, deployMode := None, None, None, None, None, None;
      maxRetries, retryDelay := None, None;
      recursive := true;
    }

    /** `readFromPrioritizedSource(key)`: the lookup without a default. */
    function Read(key: string): Option<string> {
      ReadFromPrioritizedSource(cmdLine, node, fallback, key, None)
    }

    /** `reload()`: reads and normalises every setting in the source's order,
        stopping at the first exception with the fields read so far kept. */
    method Reload(counter: NameCounter, logger: Logger, regex: RegexEngine) returns (r: Outcome<ConfigError>)
      requires counter.Valid()
      modifies this, counter, logger
      ensures counter.Valid()
      ensures r.Fail? <==> ReloadError(cmdLine, node, fallback, regex).Some?
      ensures r.Fail? ==> r.error == ReloadError(cmdLine, node, fallback, regex).value
      // a missing source stops everything before any other setting is read
      ensures Read(SourceKey).None? ==>
        && sourceFolder == None && unchanged(counter, logger)
        && jbossHome == old(jbossHome) && packagePrefix == old(packagePrefix)
        && deployedSubpath == old(deployedSubpath) && fixedTarget == old(fixedTarget)
        && name == old(name) && watchFrom == old(watchFrom)
        && maxRetries == old(maxRetries) && retryDelay == old(retryDelay)
        && filter == old(filter) && filterPattern == old(filterPattern)
        && deployMode == old(deployMode) && recursive == old(recursive)
      // unnamed instances take the next number, named ones leave the counter alone
      ensures Read(SourceKey).Some? ==>
        && name == Some(if Read(NameKey).Some? then Read(NameKey).value else "I" + IntToString(old(counter.index)))
        && counter.index == if Read(NameKey).Some? then old(counter.index) else Increment(old(counter.index))
      ensures r.Pass? ==> LocationsRead() && TuningRead(old(filterPattern), old(recursive))
      ensures r.Pass? ==>
        && logger.filterLevel == (if Read(LogLevelKey).Some? then LevelFromCode(Read(LogLevelKey).value).value
                                  else old(logger.filterLevel))
        && logger.written == old(logger.written)
    {
      sourceFolder := Read(SourceKey);
      if sourceFolder.None? {
        return Fail(MissingSource);
      }
      ReadLocations(counter);
      r := ReadTuning(logger, regex);
    }

    /** The location settings hold what the sources say, normalised. */
    ghost predicate LocationsRead()
      reads this
    {
      && sourceFolder == Read(SourceKey)
      && jbossHome == Read(JbossHomeKey)
      && packagePrefix == Read(PackagePrefixKey)
      && deployedSubpath == Some(if Read(DestSubKey).Some? then Read(DestSubKey).value else "")
      && fixedTarget == EmptyAsNull(Read(FixedTargetKey))
      && watchFrom == EmptyAsNull(Read(WatchFromKey))
    }

    /** The tuning settings hold what the sources say, defaulted; an absent
        filter or `recursive` keeps the value from before. */
    ghost predicate TuningRead(previousPattern: Option<string>, previousRecursive: bool)
      reads this
    {
      && IntSetting(MaxRetriesKey, Read(MaxRetriesKey), DefaultMaxRetries).Success?
      && IntSetting(RetryDelayKey, Read(RetryDelayKey), DefaultRetryDelay).Success?
      && maxRetries == Some(IntSetting(MaxRetriesKey, Read(MaxRetriesKey), DefaultMaxRetries).value)
      && retryDelay == Some(IntSetting(RetryDelayKey, Read(RetryDelayKey), DefaultRetryDelay).value)
      && filter == Read(FilterKey)
      && filterPattern == (if HasFilter(Read(FilterKey)) then Read(FilterKey) else previousPattern)
      && deployMode == Read(DeployModeKey)
      && recursive == RecursiveSetting(Read(RecursiveKey), previousRecursive)
    }

    /** The part of `reload` after the source check and before the numbers:
        it cannot fail. */
    method ReadLocations(counter: NameCounter)
      requires counter.Valid() && sourceFolder == Read(SourceKey)
      modifies this`jbossHome, this`packagePrefix, this`deployedSubpath, this`fixedTarget, this`name,
               this`watchFrom, counter
      ensures LocationsRead() && counter.Valid()
      ensures name == Some(if Read(NameKey).Some? then Read(NameKey).value else "I" + IntToString(old(counter.index)))
      ensures counter.index == if Read(NameKey).Some? then old(counter.index) else Increment(old(counter.index))
    {
      jbossHome := Read(JbossHomeKey);
      packagePrefix := Read(PackagePrefixKey);

      deployedSubpath := Read(DestSubKey);
      if deployedSubpath.None? {
        deployedSubpath := Some("");
      }

      fixedTarget := EmptyAsNull(Read(FixedTargetKey));

      name := Read(NameKey);
      if name.None? {
        name := Some("I" + IntToString(counter.index));
        counter.index := Increment(counter.index);
      }

      watchFrom := EmptyAsNull(Read(WatchFromKey));
    }

    /** The rest of `reload`: the numbers, the filter, the mode, `recursive`
        and the log level, each of which but the mode and `recursive` can throw. */
    method ReadTuning(logger: Logger, regex: RegexEngine) returns (r: Outcome<ConfigError>)
      requires Read(SourceKey).Some?
      modifies this`maxRetries, this`retryDelay, this`filter, this`filterPattern, this`deployMode,
               this`recursive, logger`filterLevel
      ensures r.Fail? <==> ReloadError(cmdLine, node, fallback, regex).Some?
      ensures r.Fail? ==> r.error == ReloadError(cmdLine, node, fallback, regex).value
      ensures r.Pass? ==> TuningRead(old(filterPattern), old(recursive))
      ensures r.Pass? ==>
        logger.filterLevel == (if Read(LogLevelKey).Some? then LevelFromCode(Read(LogLevelKey).value).value
                               else old(logger.filterLevel))
    {
      var retries := IntSetting(MaxRetriesKey, Read(MaxRetriesKey), DefaultMaxRetries);
      if retries.Failure? {
        return Fail(retries.error);
      }
      maxRetries := Some(retries.value);

      var delay := IntSetting(RetryDelayKey, Read(RetryDelayKey), DefaultRetryDelay);
      if delay.Failure? {
        return Fail(delay.error);
      }
      retryDelay := Some(delay.value);

      filter := Read(FilterKey);
      if HasFilter(filter) {
        if !regex.compiles(filter.value) {
          return Fail(BadFilter(filter.value));
        }
        filterPattern := filter;
      }

      deployMode := Read(DeployModeKey);

      var recursiveText := Read(RecursiveKey);
      if recursiveText.Some? {
        recursive := EqualsIgnoreCase(recursiveText.value, "true");
      }

      var logLevel := Read(LogLevelKey);
      if logLevel.Some? {
        var level := LevelFromCode(logLevel.value);
        if level.None? {
          return Fail(BadLogLevel(logLevel.value));
        }
        logger.SetFilterLevel(level.value);
      }
      r := Pass;
    }

    /** `isJboss4()`: the deploy mode is exactly "jboss4", letter case included. */
    predicate IsJboss4()
      reads this
    {
      deployMode == Some(Jboss4Mode)
    }
  }

  /** After a reload, an instance is in JBoss 4 mode exactly when its sources
      set `deployMode` to "jboss4", spelled in lower case. */
  lemma Jboss4AfterReload(p: ConfigurationProvider, previousPattern: Option<string>, previousRecursive: bool)
    requires p.TuningRead(previousPattern, previousRecursive)
    ensures p.IsJboss4() <==> p.Read(DeployModeKey) == Some(Jboss4Mode)
    ensures p.Read(DeployModeKey) == Some("JBOSS4") ==> !p.IsJboss4()
  {
  }
}
