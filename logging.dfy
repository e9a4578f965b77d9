/**
 * The process-wide logger: seven levels with numeric priorities, the
 * lookup of a level by its configuration code, the current filter level
 * and the gate that decides whether a message is written.
 */
module Logging {
  import opened Wrappers

  /** A level: its priority and the name printed in front of its messages
      (the two filter-only levels have none). */
  datatype LogLevel = LogLevel(priority: int, name: Option<string>)

  const Error: LogLevel := LogLevel(500, Some("ERROR"))
  const Warning: LogLevel := LogLevel(200, Some(" WARN"))
  const Info: LogLevel := LogLevel(100, Some(" info"))
  const Debug: LogLevel := LogLevel(30, Some("debug"))
  const Trace: LogLevel := LogLevel(10, Some("trace"))
  /** Filter level that silences every message level. */
  const ShutUp: LogLevel := LogLevel(9999, None)
  /** Filter level that lets every message level through. */
  const EverySingleShit: LogLevel := LogLevel(0, None)

  /** The levels messages are written at. */
  const MessageLevels: set<LogLevel> := {Error, Warning, Info, Debug, Trace}

  /** The codes accepted for the `logLevel` setting. */
  const Codes: set<string> := {"error", "warn", "info", "debug", "trace", "shut-up", "every-single-shit"}

  /** `Logger.getLevelFromCode`: null (None) for an unknown code. */
  function LevelFromCode(code: string): (r: Option<LogLevel>)
    ensures r.Some? <==> code in Codes
  {
    match code
    case "error" => Some(Error)
    case "warn" => Some(Warning)
    case "info" => Some(Info)
    case "debug" => Some(Debug)
    case "trace" => Some(Trace)
    case "shut-up" => Some(ShutUp)
    case "every-single-shit" => Some(EverySingleShit)
    case _ => None
  }

  /** The gate of `Logger.log` and `Logger.isEnabled` for a given filter level. */
  predicate Passes(level: LogLevel, filter: LogLevel) {
    level.priority >= filter.priority
  }

  /** Different codes name different levels, so a code selects one level. */
  lemma CodesAreDistinct(c1: string, c2: string)
    requires c1 in Codes && c2 in Codes && c1 != c2
    ensures LevelFromCode(c1) != LevelFromCode(c2)
  {
  }

  /** Message levels are strictly ordered error > warn > info > debug > trace,
      so a filter level that lets one through lets every more severe one through. */
  lemma SeverityOrder(filter: LogLevel)
    ensures Error.priority > Warning.priority > Info.priority > Debug.priority > Trace.priority
    ensures Passes(Trace, filter) ==> Passes(Debug, filter)
    ensures Passes(Debug, filter) ==> Passes(Info, filter)
    ensures Passes(Info, filter) ==> Passes(Warning, filter)
    ensures Passes(Warning, filter) ==> Passes(Error, filter)
  {
  }

  /** "shut-up" silences every message level and "every-single-shit" lets
      every one through. */
  lemma FilterExtremes(level: LogLevel)
    requires level in MessageLevels
    ensures !Passes(level, ShutUp)
    ensures Passes(level, EverySingleShit)
  {
  }

  /** The static state of `Logger`: the filter level and what has been written. */
  class Logger {
    var filterLevel: LogLevel
    var written: seq<(LogLevel, string)>

    /** Starts at debug, so trace messages are dropped until the level changes. */
    constructor ()
      ensures filterLevel == Debug && written == []
      ensures !IsEnabled(Trace) && IsEnabled(Debug)
    {
      filterLevel := Debug;
      written := [];
    }

    predicate IsEnabled(level: LogLevel)
      reads this
    {
      Passes(level, filterLevel)
    }

    function GetFilterLevel(): LogLevel
      reads this
    {
      filterLevel
    }

    method SetFilterLevel(level: LogLevel)
      modifies this`filterLevel
      ensures GetFilterLevel() == level
    {
      filterLevel := level;
    }

    /** Writes the message exactly when its level passes the filter level. */
    method Log(message: string, level: LogLevel)
      modifies this`written
      ensures written == old(written) + (if IsEnabled(level) then [(level, message)] else [])
    {
      if level.priority >= GetFilterLevel().priority {
        written := written + [(level, message)];
      }
    }
  }
}
