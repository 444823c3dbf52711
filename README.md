# vscode-fast-debug-log, modelled in Dafny

The extension works on the lines of a JavaScript or TypeScript document. It does two things:

- **Add debug logs.** After every line of the selection that ends a complete statement, it inserts a numbered, styled `console.log` line, for example `console.log('%c🐞 label 3', 'color: orange; font-weight: bold');`. The new line keeps the indentation of the statement's line.
- **Remove debug logs.** It finds every `console.log/warn/error/info/debug` call that begins its line (after indentation) and ends inside the selection, and deletes it. Such a call may span several lines.

This project models the logic behind both commands, working only on line text:

- **`StatementDetector`** (`statement-detector.ts`) decides whether a line ends a complete statement. The rules are applied in order: blank lines, comments, braces on their own, a `;` or `}` ending, ten continuation patterns (fourteen ending tokens) when followed by a line of code, an odd number of backticks, and the closing rules.
- **`ConsoleDetector`** (`console-detector.ts`):
  - tests whether a line opens a call;
  - picks the call's method;
  - scans forward with a small lexer to the line holding the call's closing parenthesis (the lexer tracks open parentheses, quotes and escapes);
  - collects the calls of a selection without letting two of them overlap.
- **`DebugLogService`** (`debug-log-service.ts`) plans the edits:
  - inserts go at the end of each complete line, numbered from 1 from the top and handed over last line first;
  - each found call gets a delete, planned from the last call to the first. As written, the delete of a multi-line call stops at the start of its closing line; see Findings.

  It also models the text of the inserted statement, the per-line and cross-line delete ranges, and the inline regular expression that cuts a call out of a line.

Supporting modules:

- **`Text`**: the JavaScript string operations used.
  - `trim` and `\s` over the ECMAScript whitespace and line-terminator set;
  - `indexOf`, prefix and suffix tests;
  - decimal numbers.
- **`Host`**: the part of the VS Code API the extension reads.
  - a document as its lines;
  - positions, ranges and text edits;
  - `TextLine.range` and `rangeIncludingLineBreak`;
  - the end-of-line setting.

  `Host.ApplyEdit` gives the meaning of one text edit on a document. It is used only to state what the planned edits do.
- **`Types`** (`types/index.ts`) and **`Constants`** (`config/constants.ts`).

Both commands are modelled as methods. The state they act on is passed as values:

- the document;
- the selection's first and last line;
- the settings;
- the boolean the editor's `applyEdit` would return.

The loops of `getCompleteStatements`, `findConsoleLogEnd` and `findConsoleLogs` are methods with `while` loops. Each is proved equal to a recursive specification function, and the properties are proved about those functions.

## Model

| member | source | states |
|---|---|---|
| Text.SkipWhitespace | src/utils/statement-detector.ts:18 | The first non-whitespace index from `j` on: the characters skipped are all whitespace, and the one reached (if any) is not. |
| Text.TrimmedEnd | src/utils/statement-detector.ts:18 | The length of the text once trailing whitespace is dropped: what is dropped is whitespace, and the last kept character is not. |
| Text.TrimEnd | src/utils/statement-detector.ts:96-107 | The text without its trailing whitespace is a prefix of it, the rest is whitespace, and it does not end in whitespace. |
| Text.Trim | src/utils/statement-detector.ts:18 | `String.prototype.trim`: empty exactly when the text is all whitespace, otherwise it starts and ends with non-whitespace. |
| Text.TrimIsSlice | src/utils/statement-detector.ts:18 | The trimmed text is the slice of the original between its whitespace margins. |
| Text.TrimUntrimmed | src/utils/statement-detector.ts:18 | A text with non-whitespace at both ends trims to itself. |
| Text.SkipWhitespaceShift | src/services/debug-log-service.ts:50-51 | Skipping whitespace in a suffix is skipping it in the whole text, shifted by the suffix's offset. |
| Text.SkipWhitespaceOver | src/services/debug-log-service.ts:50-51 | A whitespace run ending before a non-whitespace character (or the end) is exactly what is skipped. |
| Text.TrimIndented | src/services/debug-log-service.ts:156 | Indentation in front of a text that starts and ends with non-whitespace disappears under trim. |
| Text.CountChar | src/utils/statement-detector.ts:135 | The number of occurrences of a character: at most the length, and zero exactly when the character does not occur. |
| Text.CountCharIsPositions | src/utils/statement-detector.ts:135 | ``(lineText.match(/`/g) \|\| []).length``: the count is the number of positions holding the character. |
| Text.CountCharConcat | src/utils/statement-detector.ts:135 | The count of a concatenation is the sum of the counts of its parts. |
| Text.CountCharAround | src/utils/statement-detector.ts:135 | A character between two texts adds one to their counts exactly when it is the one counted. |
| Text.IndexOfFrom | src/services/debug-log-service.ts:190 | The first occurrence of a pattern at or after `from`, or none if there is no occurrence from there on. |
| Text.IndexOf | src/services/debug-log-service.ts:190 | `String.prototype.indexOf`: the leftmost occurrence, or none when the pattern does not occur. |
| Text.DigitChar | src/services/debug-log-service.ts:141 | The decimal digit character whose value is `d`. |
| Text.NatToString | src/services/debug-log-service.ts:141 | The decimal form of the debug index: non-empty, all digits, no leading zero. |
| Text.NatToStringRoundTrip | src/services/debug-log-service.ts:141 | Reading the decimal form back gives the number. |
| Text.NatToStringInjective | src/services/debug-log-service.ts:141 | Different indexes have different decimal forms. |
| Host.SplitLines | src/services/debug-log-service.ts:28 | Any text gives at least one line. |
| Host.SplitSingleLine | src/services/debug-log-service.ts:28 | A text without a line break is one line. |
| Host.SplitAtBreak | src/services/debug-log-service.ts:28 | A line followed by an `\n` or `\r\n` break and more text splits into that line and the lines of the rest. |
| Host.DeleteLineWithBreak | src/services/debug-log-service.ts:162-165 | Deleting a line's range including its break removes exactly that line. |
| Host.DeleteLastLine | src/services/debug-log-service.ts:162-165 | On the last line the same delete leaves an empty last line. |
| Host.ReplaceLineContent | src/services/debug-log-service.ts:176 | Replacing a line's content range by break-free text replaces that line and nothing else. |
| Host.InsertLineAfter | src/services/debug-log-service.ts:64-70 | Inserting a line break plus break-free text at a line's end adds exactly one line after it. |
| Host.DeleteLinesBefore | src/services/debug-log-service.ts:195-200 | Deleting from column 0 of line `s` to column 0 of a later line `e` removes lines `s` to `e - 1`. |
| Host.DeleteLinesToEnd | src/services/debug-log-service.ts:203-208 | Deleting from column 0 of `s` to the end of line `e`'s content leaves one empty line in their place. |
| Constants.MethodRank | src/config/constants.ts:12-18 | Every console method has a place in `CONSOLE_METHODS`. |
| StatementDetector.CommentLineIsPrefixTest | src/utils/statement-detector.ts:68-74 | A comment line is one that opens with `//`, `/*` or `*`. |
| StatementDetector.BraceOnlyLineIsLiteralTest | src/utils/statement-detector.ts:79-86 | A brace-only line is exactly `}`, `{`, `};` or `{;`. |
| StatementDetector.EndsStatementIsSuffixTest | src/utils/statement-detector.ts:36-38 | The statement-ending test is "ends with `;` or `}`". |
| StatementDetector.MatchesTrailingIsSuffix | src/utils/statement-detector.ts:96-107 | For a token not ending in whitespace, the regular expression `token\s*$` matches exactly when the text without trailing whitespace ends with the token. |
| StatementDetector.SuffixMatchesTrailing | src/utils/statement-detector.ts:96-110 | A text ending with the token once trimmed at the end matches `token\s*$`. |
| StatementDetector.TrailingMatchIsSuffix | src/utils/statement-detector.ts:96-110 | A match of `token\s*$` means the end-trimmed text ends with the token. |
| StatementDetector.ContinuationEndingIsPatternList | src/utils/statement-detector.ts:96-110 | The character-level continuation test holds exactly when one of the ten patterns of `incompletePatterns` matches. Their fourteen ending tokens count the operator class `[+\-*/%]` as five. |
| StatementDetector.EndingIsSuffixList | src/utils/statement-detector.ts:96-107 | The last-character test (with `&&` and `\|\|` taking two characters) holds exactly when the text ends with one of the continuation tokens. |
| StatementDetector.EndingToken | src/utils/statement-detector.ts:96-107 | For a continuation ending, a token of the list that the text ends with. |
| StatementDetector.CompleteStatementRules | src/utils/statement-detector.ts:13-63 | Blank lines, comment lines and brace-only lines are never complete. A code line ending in `;` or `}` always is. Any other code line is complete exactly when neither veto applies: a continuation ending followed by code, or an unclosed template string. A code line on the last line is complete, and a complete line is always a code line. |
| StatementDetector.SelectedExact | src/utils/statement-detector.ts:154-166 | The selected lines are the flagged lines of the range, each once, in increasing order. |
| StatementDetector.FlagsBefore | src/utils/statement-detector.ts:156-158 | One completion flag per line. |
| StatementDetector.FlagsBeforeAt | src/utils/statement-detector.ts:158 | A line's flag is whether that line is a complete statement. |
| StatementDetector.CompletionFlags | src/utils/statement-detector.ts:158 | One flag for each line of the document. |
| StatementDetector.CompleteLinesExact | src/utils/statement-detector.ts:149-167 | The complete lines of `[startLine, endLine]` are all in the range and all complete, strictly increasing, and include every complete line of the range. |
| StatementDetector.CompleteLinesWithin | src/utils/statement-detector.ts:149-167 | Every complete line found lies in the selection. |
| StatementDetector.CompleteLinesStep | src/utils/statement-detector.ts:156-164 | Looking at one more line appends it exactly when it is complete. |
| StatementDetector.GetCompleteStatements | src/utils/statement-detector.ts:149-167 | The loop returns one single-line range per complete line of the selection, in order. |
| StatementDetector.OperandEndingIsComplete | src/utils/statement-detector.ts:36-62 | A code line without backticks that ends in a letter or digit is complete, whatever the next line holds. |
| StatementDetector.LeadingOperatorOnNextLineIsIgnored | src/utils/statement-detector.ts:41-62 | `let b = 2` followed by `  + 3;` still counts as complete: only the line's own ending is consulted. |
| StatementDetector.ClosedTemplateIsNoVeto | src/utils/statement-detector.ts:135-143 | A line with exactly two backticks never triggers the template veto. |
| StatementDetector.OpenTemplateIsIncomplete | src/utils/statement-detector.ts:46-48 | An odd number of backticks, followed by a line that is neither blank nor a `//` comment, triggers the template veto. A line without a `;` or `}` ending is then not complete. |
| StatementDetector.OddBackticksOpenTemplate | src/utils/statement-detector.ts:135-143 | An odd backtick count before a non-blank, non-`//` line is the template veto. |
| StatementDetector.TemplateMiddleIsIncomplete | src/utils/statement-detector.ts:36-48 | The template veto makes a line that does not end in `;` or `}` incomplete. |
| StatementDetector.OpenTemplateExample | src/utils/statement-detector.ts:46-48 | ``const s = `a`` followed by ``b`;`` is not complete. |
| StatementDetector.ContinuedLineIsIncomplete | src/utils/statement-detector.ts:41-43 | A line with a continuation ending that is followed by a line of code is not complete. |
| ConsoleDetector.SomeMethodOpensAtIsExists | src/utils/console-detector.ts:16-17 | The alternation `(log\|warn\|error\|info\|debug)` matches exactly when one of the methods opens a call there. |
| ConsoleDetector.ConsoleLogStartIsPrefixTest | src/utils/console-detector.ts:14-19 | A line opens a call exactly when its trimmed text starts with `console.<method>`, optional whitespace and `(`. Such a line starts with `console.`. |
| ConsoleDetector.OpensCallStartsWithConsole | src/utils/console-detector.ts:17 | A call opening at column 0 starts with `console.`. |
| ConsoleDetector.FirstOccurringIsFirst | src/utils/console-detector.ts:26-31 | The method search returns the first method in list order with a call anywhere in the text, or none if no method has one. |
| ConsoleDetector.ExtractConsoleMethodIsFirst | src/utils/console-detector.ts:24-33 | `extractConsoleMethod` gives the earliest listed method that has a call in the trimmed line, or null when none has one. |
| ConsoleDetector.StartYieldsMethod | src/utils/console-detector.ts:110-117 | A call opening the line passes the start test, and the method extracted ranks no later than that call's method. |
| ConsoleDetector.NestedCallDecidesMethod | src/utils/console-detector.ts:26-31 | `console.warn(console.log(x))` is filed under `log`, the earlier listed method. |
| ConsoleDetector.RestAcceptsIsTrimTest | src/utils/console-detector.ts:76-77 | A closing parenthesis is accepted when the rest of the line, trimmed, is empty or starts with `;`. |
| ConsoleDetector.ScanLine | src/utils/console-detector.ts:51-83 | A scan that stops does so at an accepted closing parenthesis of the line. |
| ConsoleDetector.ScanLineIsFirstClose | src/utils/console-detector.ts:51-83 | The scan stops at the first column where the depth falls to 0 outside a string with an accepted rest. If it stops nowhere, it carries the lexer state at the line's end. |
| ConsoleDetector.ScanFrom | src/utils/console-detector.ts:47-88 | A line found lies at or after the line the scan started on, and inside the document. |
| ConsoleDetector.ConsoleLogEnd | src/utils/console-detector.ts:38-89 | A call's end line lies at or after its start line, and inside the document. |
| ConsoleDetector.FindConsoleLogEnd | src/utils/console-detector.ts:38-89 | The nested loop returns the line given by the line-by-line scan. The state persists across lines, and the result is null when the document ends first. |
| ConsoleDetector.QuotedRunSkipped | src/utils/console-detector.ts:56-66 | Inside a string, characters other than its delimiter change nothing. |
| ConsoleDetector.CodeRunSkipped | src/utils/console-detector.ts:56-82 | Outside strings, characters that are neither quotes nor parentheses change nothing. |
| ConsoleDetector.QuotedStringSkipped | src/utils/console-detector.ts:56-66 | A quoted string whose closing delimiter is not escaped leaves the lexer as before it, parentheses inside included. |
| ConsoleDetector.QuotedArgumentCloses | src/utils/console-detector.ts:38-89 | A plain callee with one quoted argument closes at its last character. |
| ConsoleDetector.QuotedParenExample | src/utils/console-detector.ts:56-82 | `console.log("a, (b")` ends on its own line: the parenthesis in the string is not counted. |
| ConsoleDetector.EscapedDelimiterStaysOpen | src/utils/console-detector.ts:59-63 | A delimiter after a backslash does not close the string. |
| ConsoleDetector.EscapeNeverCrossesLineStart | src/utils/console-detector.ts:53 | At column 0 the previous character is empty, so a delimiter there always closes an open string. |
| ConsoleDetector.QuotedLinePassesThrough | src/utils/console-detector.ts:47-86 | A line inside an open string that lacks the delimiter leaves the state unchanged for the next line. |
| ConsoleDetector.UnacceptedCloseContinues | src/utils/console-detector.ts:72-80 | A close to depth 0 that is followed by other code does not end the call. The scan goes on at depth 0 (the count was decremented). |
| ConsoleDetector.SpanAt | src/utils/console-detector.ts:107-126 | A span found at line `l` starts at `l` and ends no later than the selection's end. |
| ConsoleDetector.SpanTable | src/utils/console-detector.ts:102-126 | One candidate span per line. |
| ConsoleDetector.SpanTableAt | src/utils/console-detector.ts:107-126 | A table entry is the span found from that line. |
| ConsoleDetector.SpanTableWellFormed | src/utils/console-detector.ts:102-126 | Every table entry starts at its own line and ends inside the table. |
| ConsoleDetector.FindConsoleLogs | src/utils/console-detector.ts:94-136 | The loop with its processed-line set returns the spans of the collection function. |
| ConsoleDetector.MarkProcessed | src/utils/console-detector.ts:129-131 | After marking, the set is the old set plus lines `first` to `last`. |
| ConsoleDetector.SpanStartingAt | src/utils/console-detector.ts:107-126 | The per-line tests give that line's table entry. |
| ConsoleDetector.CollectEntries | src/utils/console-detector.ts:94-136 | Every span collected is the entry of its start line, not earlier than the scan position. |
| ConsoleDetector.CollectOrdered | src/utils/console-detector.ts:94-136 | Spans collected are disjoint and increasing: each ends before the next starts. |
| ConsoleDetector.CollectCovers | src/utils/console-detector.ts:94-136 | Every line with a span is covered by some collected span. |
| ConsoleDetector.ConsoleLogsSound | src/utils/console-detector.ts:94-136 | The result spans lie in the selection and are each a span found at their start line. They are disjoint and in order. Every line of the selection that starts a span lies inside one of them. |
| ConsoleDetector.SpanAtMeaning | src/utils/console-detector.ts:110-126 | A line has a span exactly when it opens a call whose end is found no later than the selection's end. The span carries the extracted method and that end line. |
| DebugLogService.Indent | src/services/debug-log-service.ts:50-51 | `^(\s*)`: the longest whitespace prefix of the line. |
| DebugLogService.DigitsPrefixUnique | src/services/debug-log-service.ts:141 | Two digit strings each followed by a non-digit and giving equal texts are equal. |
| DebugLogService.StatementSplitsAtNumber | src/services/debug-log-service.ts:141 | The statement is a line break, indentation, then `console.log('%c` with emoji, label and a space. Next come the index in decimal and the style argument. |
| DebugLogService.NumberedStatementsDiffer | src/services/debug-log-service.ts:46-72 | Statements with different indexes differ: each insert is numbered uniquely. |
| DebugLogService.EmptySettingIsAbsent | src/services/debug-log-service.ts:29-32 | An empty label, emoji, color or weight gives the same insert as leaving it out: only non-empty settings are used. |
| DebugLogService.DefaultStatement | src/services/debug-log-service.ts:30-32 | With no settings, the message is `%c🐞 <index>` and the style is `color: orange; font-weight: bold`. |
| DebugLogService.MethodFrom | src/services/debug-log-service.ts:169 | The alternation `(log\|warn\|error\|info\|debug)` in list order: a method found at column `c` has `console.<method>` written there, and no earlier listed method does. None means no remaining method is written there. |
| DebugLogService.CallGroupEnd | src/services/debug-log-service.ts:169 | The group `console\.(m)\s*\([^)]*\)\s*;?\s*` at column `c`. A found end lies past the call, and what follows it is free of line terminators. `console.<m>`, whitespace and `(` are written at `c`, and the first `)` after that `(` closes the group. Only whitespace and at most one `;` follow it. The group stops before any further whitespace, and before a `;` unless it already took one. |
| DebugLogService.CallGroupEndMeaning | src/services/debug-log-service.ts:169-171 | The rest of the pattern fails at `c` (so `createDeleteEdit` gets no match from there) exactly when no method, `(`, first `)` and trailer lay out a call group at `c`. |
| DebugLogService.CallGroupEndComplete | src/services/debug-log-service.ts:169 | Any call group laid out at `c` is the one read: the group ends at that layout's end. |
| DebugLogService.CallGroupEndWith | src/services/debug-log-service.ts:169 | With the method fixed, a found end lies past the call, has a call group laid out up to it, and is followed by no line terminator. |
| DebugLogService.MethodFromUnique | src/services/debug-log-service.ts:169 | At most one method's `console.<name>` is written at a position, and the alternation picks it. |
| DebugLogService.FirstCloseIsIndexOf | src/services/debug-log-service.ts:169 | The first `)` after the `(` is the one `[^)]*\)` reaches. |
| DebugLogService.TrailerEnd | src/services/debug-log-service.ts:169 | A trailer of whitespace around at most one `;`, with nothing takeable after it, is exactly what the greedy `\s*;?\s*` reads. |
| DebugLogService.CallGroupShape | src/services/debug-log-service.ts:169 | The pieces the group end goes through have the shape of the group. |
| DebugLogService.FirstCloseAfter | src/services/debug-log-service.ts:169 | `[^)]*\)`: the `)` found is the first one after the `(`. |
| DebugLogService.TrailerAfter | src/services/debug-log-service.ts:169 | `\s*;?\s*`: the text taken after the `)` is whitespace around at most one `;`. |
| DebugLogService.CallStarts | src/services/debug-log-service.ts:169 | One flag per position of the line, the end included. |
| DebugLogService.LazySearchFinds | src/services/debug-log-service.ts:169 | The lazy `(.*?)` stops at the first start position it reaches without crossing a line terminator. |
| DebugLogService.LazySearchExhausts | src/services/debug-log-service.ts:169 | When the lazy group fails, no position reachable without a line terminator starts a call. |
| DebugLogService.InlineCallStartIsLeftmost | src/services/debug-log-service.ts:168-171 | The inline pattern matches exactly when a call is reachable after the indentation. The call it cuts out is the leftmost one. |
| DebugLogService.InlineCallSplitMeaning | src/services/debug-log-service.ts:168-174 | `before` is the line up to the leftmost call, and `after` is the line from the end of the call's group on. |
| DebugLogService.DeleteLineEffect | src/services/debug-log-service.ts:162-165 | Deleting a whole line removes it. On the last line an empty line is left. |
| DebugLogService.InlineDeleteEffect | src/services/debug-log-service.ts:167-177 | A line with other content has the call cut out, and nothing else changes. |
| DebugLogService.NoLineBreakSplice | src/services/debug-log-service.ts:172-174 | Text cut out of a line leaves a line without line breaks. |
| DebugLogService.ConsoleStartHasNoPrefix | src/services/debug-log-service.ts:188-193 | For a line that opens a call, only whitespace precedes its first `console.`. So the partial multi-line branch is never reached from `removeDebugLogs`. |
| DebugLogService.ConsoleFollowsIndent | src/services/debug-log-service.ts:188-191 | A line whose trimmed text starts with `console.` has it right after its indentation. |
| DebugLogService.MultiLineDeleteEffect | src/services/debug-log-service.ts:185-209 | The corrected multi-line delete removes lines `s` to `e`, the closing line and its break included. The partial branch leaves one empty line for them. |
| DebugLogService.MultiLineDeleteKeepsClosingLine | src/services/debug-log-service.ts:195-200 | As written, a multi-line whole-call delete removes lines `s` to `e - 1` and keeps the closing line `e`. |
| DebugLogService.ClosingLineKeptExample | src/services/debug-log-service.ts:195-200 | For `["console.log(a,", "  b);", "x"]`, the found span is 0-1. `removeDebugLogs` as written plans one delete, which leaves `["  b);", "x"]`. The corrected plan leaves `["x"]`. |
| DebugLogService.TwoLineCallShape | src/services/debug-log-service.ts:188-193 | The example's first line has nothing before `console.`. |
| DebugLogService.TwoLineCallOpens | src/utils/console-detector.ts:14-33 | `console.log(a,` opens a `log` call. |
| DebugLogService.TwoLineCallCarries | src/utils/console-detector.ts:51-85 | Its scan carries depth 1 to the next line. |
| DebugLogService.TwoLineCallCloses | src/utils/console-detector.ts:72-79 | `  b);` closes the call at column 3. |
| DebugLogService.TwoLineCallEnd | src/utils/console-detector.ts:38-89 | The call starting on line 0 ends on line 1. |
| DebugLogService.TwoLineCallFound | src/utils/console-detector.ts:94-136 | The selection 0-2 holds the single span 0-1. |
| DebugLogService.NoCallOnShortLine | src/utils/console-detector.ts:14-19 | A line shorter than `console.` opens no call. |
| DebugLogService.ReversedAt | src/services/debug-log-service.ts:77 | `reverse` keeps the length and puts element `k` from the end at position `k`. |
| DebugLogService.ReversedNumberedAt | src/services/debug-log-service.ts:46-77 | After reversing, the `k`-th edit is the insert after the `k`-th complete line from the bottom, with its top-down number. |
| DebugLogService.AddDebugLogs | src/services/debug-log-service.ts:20-85 | The edits handed to the editor are the planned inserts. The result is true exactly when there was something to insert and the editor applied it. |
| DebugLogService.NumberedInsertionsAt | src/services/debug-log-service.ts:46-73 | The `j`-th insert, in document order, goes after the `j`-th complete line and is numbered `j + 1`. |
| DebugLogService.PlannedInsertionsNumbered | src/services/debug-log-service.ts:46-77 | There is one planned insert per complete line, numbered from the top and listed from the bottom. |
| DebugLogService.PlannedInsertionsBackToFront | src/services/debug-log-service.ts:64-77 | Each insert is an empty range at the end of a complete line. The lines strictly decrease along the list, so no insert moves where a later one goes. |
| DebugLogService.ArgumentsQuotable | src/services/debug-log-service.ts:29-32 | Quotable settings give quotable message and style arguments. |
| DebugLogService.InsertionAddsLine | src/services/debug-log-service.ts:64-70 | Applying an insert adds exactly one line, the indented call, after the statement's line. The document stays free of stray breaks. |
| DebugLogService.InsertedLineIsLine | src/services/debug-log-service.ts:141 | The inserted call has no line break. |
| DebugLogService.InsertedLineHasNoBreak | src/services/debug-log-service.ts:141 | Indentation plus a call with quotable arguments has no line break. |
| DebugLogService.InsertKeepsWellFormed | src/services/debug-log-service.ts:64-70 | Adding a break-free line keeps the document well formed. |
| DebugLogService.ScanOfLaidOutCall | src/utils/console-detector.ts:51-83 | A line shaped as `console.log('…', '…');` closes at its last parenthesis. |
| DebugLogService.SecondArgumentCloses | src/utils/console-detector.ts:51-83 | From the comma on, the second quoted argument and `)` close the call. |
| DebugLogService.InsertedLineScan | src/utils/console-detector.ts:38-89 | The scanner ends an inserted line's call on that line, at its `)`. |
| DebugLogService.LogCallHead | src/services/debug-log-service.ts:141 | The inserted text begins with indentation and `console.log('`. It has no quote or parenthesis before the `(`. |
| DebugLogService.LogCallArguments | src/services/debug-log-service.ts:141 | The inserted text is laid out as two single-quoted arguments, a comma and a space between them, and `);` after. |
| DebugLogService.LogCallOpens | src/utils/console-detector.ts:14-19 | The inserted text opens a `log` call, and it counts as a whole-line call for deletion. |
| DebugLogService.InsertedLineIsDetected | src/utils/console-detector.ts:110-121 | An inserted line passes the start test, is filed under `log` and closes on itself. |
| DebugLogService.ConsoleLogsWithin | src/utils/console-detector.ts:121 | Every span found lies in the document. |
| DebugLogService.RemoveDebugLogs | src/services/debug-log-service.ts:90-127 | The edits are the planned deletes as the code writes them, last call first. The count is their number when the editor applied them, and 0 otherwise. |
| DebugLogService.DeleteEditSpan | src/services/debug-log-service.ts:147-213 | A delete, as written or corrected, starts at column 0 of the call's first line. It is a valid range that ends no later than the start of the line after the call. |
| DebugLogService.SingleLineDeleteSpan | src/services/debug-log-service.ts:154-184 | A single-line delete lies within its line, its break included. |
| DebugLogService.MultiLineDeleteSpan | src/services/debug-log-service.ts:185-210 | A multi-line delete, as written or corrected, lies within the call's lines, the closing break included. |
| DebugLogService.DeletesBackToFront | src/services/debug-log-service.ts:111-117 | For disjoint, ordered spans, with the deletes as written or corrected, there is at most one delete per span. Each delete is valid and starts at a column 0. Each one ends before the previous one starts. |
| DebugLogService.DeletesWithin | src/services/debug-log-service.ts:111-117 | At most one delete per span. Each is a valid range starting at column 0, no earlier than the first span. |
| DebugLogService.DeletesOrdered | src/services/debug-log-service.ts:111-117 | Each delete of the list ends before the previous one starts. |
| DebugLogService.PlannedDeletesBackToFront | src/services/debug-log-service.ts:98-117 | The planned deletes, as written or corrected, are valid, at most one per call found, and do not overlap, running from the bottom up. |
| DebugLogService.InsertedLineIsFound | src/utils/console-detector.ts:94-136 | A line made of indentation and an inserted call is found as a one-line `log` span. |
| DebugLogService.DeleteInsertedLine | src/services/debug-log-service.ts:162-165 | Deleting a line that was just added gives back the original document. When that line is last, an empty line remains. |
| DebugLogService.InsertThenRemove | src/services/debug-log-service.ts:54-70 | Removing right after adding: the inserted line is found as a `log` call and planned as a whole-line delete. Applying that delete restores the document, up to a trailing empty line when the statement was the last line. |
| DebugLogService.InsertedLineRemoved | src/services/debug-log-service.ts:98-117 | In the document with the inserted line, that line is found by the code as written, planned as one whole-line delete, and the delete restores the document. |
| DebugLogService.InsertedCallDeleted | src/services/debug-log-service.ts:154-165 | A line holding only an inserted call is found, and its delete is the whole line. |

## Left out

- Columns count Unicode code points. VS Code counts UTF-16 code units, so a line with characters outside the Basic Multilingual Plane, such as the default emoji, has larger column numbers in the editor than here. Which lines are edited is not affected.
- `async`/`await`: each command is modelled as one synchronous step.
- `workspace.applyEdit` is a boolean parameter: whether the editor accepted the edit.
- Applying a whole `WorkspaceEdit` of several edits at once is not modelled. `Host.ApplyEdit` gives the meaning of one edit. The lemmas prove that the planned edits are ordered from the bottom up and do not overlap, so each edit's meaning does not depend on the others.
- `edits.reverse()` reverses an array in place. It is modelled as a function on values (`DebugLogService.Reversed`).
- Command registration, the editor validator, prompts and messages (`extension.ts`, `commands/`, `utils/editor-validator.ts`) are not part of this model.
- The two regular expressions are hand-coded as character tests: the call-start pattern and the inline-delete pattern of `createDeleteEdit`. No general regular-expression engine is modelled. `Text.IsWhitespace` is the ECMAScript whitespace and line-terminator set that both `trim` and `\s` use.
- Line breaks are `\n`, `\r\n` and a lone `\r`. U+2028 and U+2029 may sit inside a line, and regex `.` does not cross them.
- The partial branch of the multi-line delete is modelled as the code writes it. Its range starts at column 0 of the first line, so the text before the call would go too, not only the call. `DebugLogService.ConsoleStartHasNoPrefix` proves that spans found by `findConsoleLogs` never reach this branch.
- StatementDetector.GetCompleteStatements, ConsoleDetector.FindConsoleLogs, DebugLogService.AddDebugLogs and DebugLogService.RemoveDebugLogs require `endLine < |doc|`, because `document.lineAt` throws past the last line. `startLine` is unconstrained; a start after the end gives an empty result.
- DebugLogService.InsertThenRemove requires quotable settings: no `'`, no backslash and no line break in the label, emoji, color or weight. Otherwise the inserted text is not a well-formed call and removal is not promised.
- DebugLogService.AddDebugLogs returns the edit list as a value. The `edits.length > 0` test after the loop is the same as the early return on an empty statement list.

## Findings

| source | as written | input that shows it | evidently intended | confidence | as-written member | corrected member |
|---|---|---|---|---|---|---|
| src/services/debug-log-service.ts:195-198 | A multi-line call's whole-line delete ends at line `endLine`, column `rangeIncludingLineBreak.end.character`. That range ends at column 0 of the next line, so the column is 0 whenever the closing line has a break. The delete then stops at the start of the closing line. | Document `["console.log(a,", "  b);", "x"]` with the span of lines 0-1: the result is `["  b);", "x"]` | Delete through `rangeIncludingLineBreak.end` of the closing line, giving `["x"]`. `DebugLogService.PlannedDeletes` with `corrected` true plans that delete. | not executed | DebugLogService.MultiLineDeleteKeepsClosingLine | DebugLogService.MultiLineDeleteEffect |
