/**
 * `MagicHotDeployerRunner.run`: the process entry point. It opens the log
 * filter completely, reads the command line, loads and configures every
 * instance, starts them all, and then polls until no instance is alive,
 * when the process exits with status 1.
 *
 * Whether an instance's thread is alive at a given poll is an input,
 * `alive(poll, instance)`; how many polls are looked at is a bound `polls`.
 */
module Runner {
  import opened Wrappers
  import opened Logging
  import opened Configuration
  import opened EngineLoader

  /** Is some instance among the first `count` alive at poll `poll`? */
  predicate SomeAlive(alive: (nat, nat) -> bool, poll: nat, count: nat) {
    exists i :: 0 <= i < count && alive(poll, i)
  }

  /** The scan for `atLeastOneAlive`: it stops at the first instance found
      alive, so `scanned` is that instance, or `count` when none is. */
  method AnyAlive(alive: (nat, nat) -> bool, poll: nat, count: nat) returns (atLeastOne: bool, scanned: nat)
    ensures atLeastOne <==> SomeAlive(alive, poll, count)
    ensures atLeastOne ==> scanned < count && alive(poll, scanned)
    ensures !atLeastOne ==> scanned == count
    ensures forall j :: 0 <= j < scanned ==> !alive(poll, j)
  {
    atLeastOne := false;
    scanned := 0;
    while scanned < count
      invariant scanned <= count
      invariant forall j :: 0 <= j < scanned ==> !alive(poll, j)
    {
      if alive(poll, scanned) {
        atLeastOne := true;
        break;
      }
      scanned := scanned + 1;
    }
  }

  /** The polling loop: the index of the first poll at which no instance is
      alive, which is when the process exits; `None` when every one of the
      `polls` polls looked at finds one alive. */
  method Supervise(alive: (nat, nat) -> bool, count: nat, polls: nat) returns (exitAt: Option<nat>)
    ensures exitAt.Some? ==> exitAt.value < polls && !SomeAlive(alive, exitAt.value, count)
    ensures exitAt.Some? ==> forall q :: 0 <= q < exitAt.value ==> SomeAlive(alive, q, count)
    ensures exitAt.None? <==> forall q :: 0 <= q < polls ==> SomeAlive(alive, q, count)
  {
    for poll := 0 to polls
      invariant forall q :: 0 <= q < poll ==> SomeAlive(alive, q, count)
    {
      var atLeastOne, _ := AnyAlive(alive, poll, count);
      if !atLeastOne {
        return Some(poll);
      }
    }
    exitAt := None;
  }

  /** How a run ends: the command line or a configuration is refused (the
      exception reaches `main`, which logs it), every instance has died (the
      process exits), or the instances are still alive after the polls
      looked at. */
  datatype RunEnd =
    | CommandLineRejected
    | ConfigurationRejected(error: ConfigError)
    | AllDead(poll: nat)
    | StillPolling

  /** `run`: `cmdLine` is the parsed command line, or `None` when parsing
      failed; `iniFile` the sections of the ini file, or `None` when there is
      none. `started` is the list of instances started, in start order. */
  method Run(cmdLine: Option<CommandLine>, iniFile: Option<seq<IniSection>>,
             counter: NameCounter, logger: Logger, regex: RegexEngine,
             alive: (nat, nat) -> bool, polls: nat)
    returns (started: seq<ConfigurationProvider>, end: RunEnd)
    requires counter.Valid()
    modifies counter, logger
    ensures counter.Valid()
    ensures cmdLine.None? ==>
      end == CommandLineRejected && started == [] && logger.filterLevel == EverySingleShit && unchanged(counter)
    ensures cmdLine.Some? && iniFile.None? ==>
      started == [] && logger.filterLevel == EverySingleShit &&
      end == (if polls == 0 then StillPolling else AllDead(0))
    ensures end.ConfigurationRejected? ==>
      && started == [] && iniFile.Some? && cmdLine.Some?
      && exists i :: 0 <= i < |InstanceSections(iniFile.value)| &&
           ReloadError(cmdLine.value, Some(InstanceSections(iniFile.value)[i]), FallbackOf(iniFile.value), regex) == Some(end.error)
    ensures cmdLine.Some? && iniFile.Some? ==>
      (end.ConfigurationRejected? <==>
         exists i :: 0 <= i < |InstanceSections(iniFile.value)| &&
           ReloadError(cmdLine.value, Some(InstanceSections(iniFile.value)[i]), FallbackOf(iniFile.value), regex).Some?)
    ensures cmdLine.Some? && iniFile.Some? && !end.ConfigurationRejected? ==>
      && |started| == |InstanceSections(iniFile.value)|
      && (forall i :: 0 <= i < |started| ==>
            Configured(started[i], cmdLine.value, InstanceSections(iniFile.value)[i], FallbackOf(iniFile.value),
                       NameAt(cmdLine.value, InstanceSections(iniFile.value), FallbackOf(iniFile.value), old(counter.index), i)))
      && counter.index == IndexUpTo(cmdLine.value, InstanceSections(iniFile.value), FallbackOf(iniFile.value), old(counter.index), |InstanceSections(iniFile.value)|)
      // the filter opened at the start is overridden by the last instance that sets a level
      && logger.filterLevel == FilterUpTo(cmdLine.value, InstanceSections(iniFile.value), FallbackOf(iniFile.value), EverySingleShit, |InstanceSections(iniFile.value)|)
    ensures end.AllDead? ==> end.poll < polls && !SomeAlive(alive, end.poll, |started|)
    ensures end.AllDead? ==> forall q :: 0 <= q < end.poll ==> SomeAlive(alive, q, |started|)
    ensures end.StillPolling? ==> forall q :: 0 <= q < polls ==> SomeAlive(alive, q, |started|)
  {
    logger.SetFilterLevel(EverySingleShit);
    if cmdLine.None? {
      return [], CommandLineRejected;
    }
    var loaded := LoadEngines(iniFile, cmdLine.value, counter, logger, regex);
    if loaded.Failure? {
      return [], ConfigurationRejected(loaded.error);
    }
    started := loaded.value;
    var exitAt := Supervise(alive, |started|, polls);
    if started == [] {
      // no instance can be alive, so the first poll exits
      assert !SomeAlive(alive, 0, 0);
    }
    end := if exitAt.Some? then AllDead(exitAt.value) else StillPolling;
  }
}
