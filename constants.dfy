/** The fixed method list and the defaults of the inserted statement. */
module Constants {
  import opened Types

  /** `CONSOLE_METHODS`: every method, once, in the order the detector tries them. */
  const ConsoleMethods: seq<ConsoleMethod> := [Log, Warn, Error, Info, Debug]

  function MethodName(m: ConsoleMethod): string {
    match m
    case Log => "log"
    case Warn => "warn"
    case Error => "error"
    case Info => "info"
    case Debug => "debug"
  }

  /** Where `m` stands in `ConsoleMethods`. */
  function MethodRank(m: ConsoleMethod): (k: nat)
    ensures k < |ConsoleMethods| && ConsoleMethods[k] == m
  {
    match m
    case Log => 0
    case Warn => 1
    case Error => 2
    case Info => 3
    case Debug => 4
  }

  const DebugLogColor: string := "orange"
  const DebugLogFontWeight: string := "bold"
  /** U+1F41E, the lady beetle. */
  const DebugEmoji: string := "\U{1F41E}"
}
