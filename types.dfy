/** The records the extension passes between its parts. */
module Types {
  import opened Wrappers

  /** The console methods the extension recognises, in the order it tries them. */
  datatype ConsoleMethod = Log | Warn | Error | Info | Debug

  /** Options of one insertion run (`label` in the source; `label` is a Dafny keyword). An absent or empty field falls back to the default. */
  datatype DebugLogConfig = DebugLogConfig(
    debugLabel: Option<string>,
    emoji: Option<string>,
    color: Option<string>,
    fontWeight: Option<string>)

  /** Lines of one statement, both inclusive. */
  datatype StatementRange = StatementRange(startLine: nat, endLine: nat)

  /** Lines of one console call, both inclusive, and the method it was filed under (`method` in the source, a Dafny keyword). */
  datatype ConsoleLogRange = ConsoleLogRange(startLine: nat, endLine: nat, consoleMethod: ConsoleMethod)
}
