/**
 * Finding console calls in line text: whether a line opens a call, which method it
 * names, on which line the call's closing parenthesis stands (a character scanner
 * with a parenthesis depth and a quote state that carry over from line to line),
 * and the spans of all calls in a selection.
 */
module ConsoleDetector {
  import opened Wrappers
  import opened Text
  import opened Host
  import opened Types
  import opened Constants

  /** The regular expression `console\.<m>\s*\(` matches `t` at index `i`. */
  predicate OpensCallAt(t: string, i: nat, m: ConsoleMethod) {
    var head := "console." + MethodName(m);
    OccursAt(t, head, i) && var j := SkipWhitespace(t, i + |head|); j < |t| && t[j] == '('
  }

  /** Some method of `ConsoleMethods[k..]` opens a call at index `j` of `t`: the alternation of the pattern, tried in order. */
  predicate SomeMethodOpensAt(t: string, j: nat, k: nat)
    requires k <= |ConsoleMethods|
    decreases |ConsoleMethods| - k
  {
    k < |ConsoleMethods| && (OpensCallAt(t, j, ConsoleMethods[k]) || SomeMethodOpensAt(t, j, k + 1))
  }

  lemma {:induction false} SomeMethodOpensAtIsExists(t: string, j: nat, k: nat)
    requires k <= |ConsoleMethods|
    ensures SomeMethodOpensAt(t, j, k) <==> exists n | k <= n < |ConsoleMethods| :: OpensCallAt(t, j, ConsoleMethods[n])
    decreases |ConsoleMethods| - k
  {
    if k < |ConsoleMethods| {
      SomeMethodOpensAtIsExists(t, j, k + 1);
    }
  }

  /**
   * `isConsoleLogStart`: the pattern `^\s*console\.(log|warn|error|info|debug)\s*\(`
   * tested on the trimmed line.
   */
  predicate IsConsoleLogStart(lineText: string) {
    var t := Trim(lineText);
    SomeMethodOpensAt(t, SkipWhitespace(t, 0), 0)
  }

  /** The leading `\s*` reaches nothing on a trimmed line: the test is a prefix test for `console.`, a method, and `(`. */
  lemma ConsoleLogStartIsPrefixTest(lineText: string)
    ensures IsConsoleLogStart(lineText) <==> exists m :: OpensCallAt(Trim(lineText), 0, m)
    ensures IsConsoleLogStart(lineText) ==> StartsWith(Trim(lineText), "console.")
  {
    var t := Trim(lineText);
    assert SkipWhitespace(t, 0) == 0;
    SomeMethodOpensAtIsExists(t, 0, 0);
    if exists m :: OpensCallAt(t, 0, m) {
      var m :| OpensCallAt(t, 0, m);
      assert OpensCallAt(t, 0, ConsoleMethods[MethodRank(m)]);
    }
    if IsConsoleLogStart(lineText) {
      var k :| 0 <= k < |ConsoleMethods| && OpensCallAt(t, 0, ConsoleMethods[k]);
      OpensCallStartsWithConsole(t, ConsoleMethods[k]);
    }
  }

  lemma OpensCallStartsWithConsole(t: string, m: ConsoleMethod)
    requires OpensCallAt(t, 0, m)
    ensures StartsWith(t, "console.")
  {
    var head := "console." + MethodName(m);
    assert t[..8] == head[..8];
  }

  /** `console\.<m>\s*\(` matches somewhere in `t`. */
  predicate OccursIn(t: string, m: ConsoleMethod) {
    exists i | 0 <= i <= |t| :: OpensCallAt(t, i, m)
  }

  /** The first method of `ConsoleMethods[k..]` that occurs in `t`. */
  function FirstOccurring(t: string, k: nat): Option<ConsoleMethod>
    requires k <= |ConsoleMethods|
    decreases |ConsoleMethods| - k
  {
    if k == |ConsoleMethods| then None
    else if OccursIn(t, ConsoleMethods[k]) then Some(ConsoleMethods[k])
    else FirstOccurring(t, k + 1)
  }

  lemma {:induction false} FirstOccurringIsFirst(t: string, k: nat)
    requires k <= |ConsoleMethods|
    ensures var r := FirstOccurring(t, k);
      && (r.Some? ==> k <= MethodRank(r.value) && OccursIn(t, r.value))
      && (r.Some? ==> forall j :: k <= j < MethodRank(r.value) ==> !OccursIn(t, ConsoleMethods[j]))
      && (r.None? ==> forall j :: k <= j < |ConsoleMethods| ==> !OccursIn(t, ConsoleMethods[j]))
    decreases |ConsoleMethods| - k
  {
    if k < |ConsoleMethods| && !OccursIn(t, ConsoleMethods[k]) {
      FirstOccurringIsFirst(t, k + 1);
    }
  }

  /**
   * `extractConsoleMethod`: the first method, in `CONSOLE_METHODS` order, whose
   * `console\.<m>\s*\(` occurs anywhere in the trimmed line; `None` for the source's null.
   */
  function ExtractConsoleMethod(lineText: string): Option<ConsoleMethod> {
    FirstOccurring(Trim(lineText), 0)
  }

  /** The method found occurs on the line, and no method ranked before it does; `None` means none occurs. */
  lemma ExtractConsoleMethodIsFirst(lineText: string)
    ensures var r := ExtractConsoleMethod(lineText);
      && (r.Some? ==> OccursIn(Trim(lineText), r.value))
      && (r.Some? ==> forall m :: MethodRank(m) < MethodRank(r.value) ==> !OccursIn(Trim(lineText), m))
      && (r.None? ==> forall m :: !OccursIn(Trim(lineText), m))
  {
    var t := Trim(lineText);
    var r := FirstOccurring(t, 0);
    FirstOccurringIsFirst(t, 0);
    if r.Some? {
      forall m | MethodRank(m) < MethodRank(r.value) ensures !OccursIn(t, m) {
        assert ConsoleMethods[MethodRank(m)] == m;
      }
    } else {
      forall m ensures !OccursIn(t, m) {
        assert ConsoleMethods[MethodRank(m)] == m;
      }
    }
  }

  /** A line that opens a call always yields a method, one ranked no later than the one it opens with. */
  lemma StartYieldsMethod(lineText: string, m: ConsoleMethod)
    requires OpensCallAt(Trim(lineText), 0, m)
    ensures IsConsoleLogStart(lineText)
    ensures ExtractConsoleMethod(lineText).Some?
    ensures MethodRank(ExtractConsoleMethod(lineText).value) <= MethodRank(m)
  {
    ConsoleLogStartIsPrefixTest(lineText);
    ExtractConsoleMethodIsFirst(lineText);
    assert OccursIn(Trim(lineText), m);
  }

  /** The method is the earliest-ranked one anywhere on the line, not the one the line opens with. */
  lemma NestedCallDecidesMethod()
    ensures ExtractConsoleMethod("console.warn(console.log(x))") == Some(Log)
  {
    var t := "console.warn(console.log(x))";
    assert Trim(t) == t by {
      TrimUntrimmed(t);
    }
    assert OpensCallAt(t, 13, Log) by {
      assert t[13..24] == "console.log";
      assert SkipWhitespace(t, 24) == 24;
    }
    assert OccursIn(t, Log);
  }

  // The scanner of `findConsoleLogEnd`.

  /** Outside any string, or inside a string opened by `delim`. */
  datatype Quote = Code | InString(delim: char)

  /** The scanner's state: `openParens` and the pair `inString`, `stringChar`. */
  datatype Lexer = Lexer(openParens: int, quote: Quote)

  predicate IsQuoteChar(c: char) {
    c == '"' || c == '\'' || c == '`'
  }

  /**
   * The quote state after `c`: any quote character opens a string in code; inside a
   * string only its own delimiter, not right after a backslash, closes it.
   */
  function StepQuote(q: Quote, c: char, afterBackslash: bool): Quote {
    match q
    case Code => if IsQuoteChar(c) then InString(c) else Code
    case InString(d) => if c == d && !afterBackslash then Code else q
  }

  /** The state after `text[i]`; the character before it counts only on the same line. */
  function Step(text: string, i: nat, st: Lexer): Lexer
    requires i < |text|
  {
    var c := text[i];
    var q := StepQuote(st.quote, c, i > 0 && text[i - 1] == '\\');
    var n :=
      if q.Code? && c == '(' then st.openParens + 1
      else if q.Code? && c == ')' then st.openParens - 1
      else st.openParens;
    Lexer(n, q)
  }

  /**
   * After a closing parenthesis at `i`, the rest of the line trims to nothing or
   * starts with `;`: the first non-whitespace character after `i`, if any, is `;`.
   */
  predicate RestAccepts(text: string, i: nat)
    requires i < |text|
  {
    var j := SkipWhitespace(text, i + 1);
    j == |text| || text[j] == ';'
  }

  /** The character test is the source's test on the trimmed rest of the line. */
  lemma RestAcceptsIsTrimTest(text: string, i: nat)
    requires i < |text|
    ensures RestAccepts(text, i) <==> (var t := Trim(text[i + 1..]); StartsWith(t, ";") || |t| == 0)
  {
    var rest := text[i + 1..];
    var t := Trim(rest);
    var j := SkipWhitespace(text, i + 1);
    TrimIsSlice(rest);
    SkipWhitespaceShift(text, i + 1, 0);
    if t != [] {
      assert t[..1] == [t[0]];
    }
  }

  /** `text[i]` is a `)` in code that brings the depth from `st` to zero, and the rest of the line accepts. */
  predicate ClosesAt(text: string, i: nat, st: Lexer) {
    i < |text| && text[i] == ')' && var s := Step(text, i, st);
    s.quote.Code? && s.openParens == 0 && RestAccepts(text, i)
  }

  /** How a line scan ends: at a closing column, or at the end of the line with a state to carry on with. */
  datatype LineScan = Closed(column: nat) | Carry(state: Lexer)

  /** The inner `for` loop of `findConsoleLogEnd`, from index `i` in state `st`. */
  function ScanLine(text: string, i: nat, st: Lexer): (r: LineScan)
    requires i <= |text|
    ensures r.Closed? ==> i <= r.column < |text| && text[r.column] == ')' && RestAccepts(text, r.column)
    decreases |text| - i
  {
    if i == |text| then Carry(st)
    else if ClosesAt(text, i, st) then Closed(i)
    else ScanLine(text, i + 1, Step(text, i, st))
  }

  /** The state after scanning `text[i..j]` from `st`, ignoring any close. */
  function StateAt(text: string, i: nat, j: nat, st: Lexer): Lexer
    requires i <= j <= |text|
    decreases j - i
  {
    if i == j then st else StateAt(text, i + 1, j, Step(text, i, st))
  }

  /**
   * The line scan stops at the first index where the running state closes, and
   * otherwise hands on the state after the whole line.
   */
  lemma {:induction false} ScanLineIsFirstClose(text: string, i: nat, st: Lexer)
    requires i <= |text|
    ensures ScanLine(text, i, st).Closed? ==>
      var c := ScanLine(text, i, st).column;
      ClosesAt(text, c, StateAt(text, i, c, st))
      && forall k :: i <= k < c ==> !ClosesAt(text, k, StateAt(text, i, k, st))
    ensures ScanLine(text, i, st).Carry? ==>
      ScanLine(text, i, st).state == StateAt(text, i, |text|, st)
      && forall k :: i <= k < |text| ==> !ClosesAt(text, k, StateAt(text, i, k, st))
    decreases |text| - i
  {
    if i < |text| && !ClosesAt(text, i, st) {
      var s := Step(text, i, st);
      ScanLineIsFirstClose(text, i + 1, s);
      forall k | i < k <= |text| ensures StateAt(text, i, k, st) == StateAt(text, i + 1, k, s) {
      }
    }
  }

  /** The outer `while` loop of `findConsoleLogEnd`, from line `l` in state `st`. */
  function ScanFrom(doc: Document, l: nat, st: Lexer): (r: Option<nat>)
    ensures r.Some? ==> l <= r.value < |doc|
    decreases |doc| - l
  {
    if l >= |doc| then None
    else match ScanLine(doc[l], 0, st)
      case Closed(_) => Some(l)
      case Carry(next) => ScanFrom(doc, l + 1, next)
  }

  /** The line of the call's closing parenthesis, for a call opening on `startLine`. */
  function ConsoleLogEnd(doc: Document, startLine: nat): (r: Option<nat>)
    ensures r.Some? ==> startLine <= r.value < |doc|
  {
    ScanFrom(doc, startLine, Lexer(0, Code))
  }

  /** A line the scan closes on is the call's last line. */
  lemma ClosedLineEnds(doc: Document, l: nat, st: Lexer)
    requires l < |doc| && ScanLine(doc[l], 0, st).Closed?
    ensures ScanFrom(doc, l, st) == Some(l)
  {
  }

  /** A line the scan runs through hands its final state to the next line. */
  lemma CarriedLineContinues(doc: Document, l: nat, st: Lexer)
    requires l < |doc| && ScanLine(doc[l], 0, st).Carry?
    ensures ScanFrom(doc, l, st) == ScanFrom(doc, l + 1, ScanLine(doc[l], 0, st).state)
  {
  }

  /** The quote state the source keeps as `inString` and `stringChar`. */
  function QuoteOf(inString: bool, stringChar: string): Quote
    requires inString ==> |stringChar| == 1
  {
    if inString then InString(stringChar[0]) else Code
  }

  /** `findConsoleLogEnd`. */
  method FindConsoleLogEnd(doc: Document, startLine: nat) returns (r: Option<nat>)
    ensures r == ConsoleLogEnd(doc, startLine)
  {
    var lineNum := startLine;
    var openParens := 0;
    var inString := false;
    var stringChar := "";
    while lineNum < |doc|
      invariant startLine <= lineNum
      invariant inString <==> |stringChar| == 1
      invariant !inString ==> stringChar == ""
      invariant ConsoleLogEnd(doc, startLine) == ScanFrom(doc, lineNum, Lexer(openParens, QuoteOf(inString, stringChar)))
      decreases |doc| - lineNum
    {
      var lineText := doc[lineNum];
      ghost var lineStart := Lexer(openParens, QuoteOf(inString, stringChar));
      var i := 0;
      while i < |lineText|
        invariant i <= |lineText|
        invariant inString <==> |stringChar| == 1
        invariant !inString ==> stringChar == ""
        invariant ScanLine(lineText, 0, lineStart) == ScanLine(lineText, i, Lexer(openParens, QuoteOf(inString, stringChar)))
      {
        ghost var st := Lexer(openParens, QuoteOf(inString, stringChar));
        ghost var next := Step(lineText, i, st);
        var ch := lineText[i];
        var prevChar := if i > 0 then [lineText[i - 1]] else "";
        if !inString && (ch == '"' || ch == '\'' || ch == '`') {
          inString := true;
          stringChar := [ch];
        } else if inString && [ch] == stringChar && prevChar != "\\" {
          inString := false;
          stringChar := "";
        }
        assert QuoteOf(inString, stringChar) == next.quote;
        if !inString {
          if ch == '(' {
            openParens := openParens + 1;
          } else if ch == ')' {
            openParens := openParens - 1;
            if openParens == 0 {
              var restOfLine := Trim(lineText[i + 1..]);
              RestAcceptsIsTrimTest(lineText, i);
              if StartsWith(restOfLine, ";") || |restOfLine| == 0 {
                assert ClosesAt(lineText, i, st);
                ClosedLineEnds(doc, lineNum, lineStart);
                return Some(lineNum);
              }
            }
          }
        }
        assert Lexer(openParens, QuoteOf(inString, stringChar)) == next;
        assert !ClosesAt(lineText, i, st);
        i := i + 1;
      }
      CarriedLineContinues(doc, lineNum, lineStart);
      lineNum := lineNum + 1;
    }
    return None;
  }

  // Properties of the scanner.

  /**
   * Inside a string, a run of characters without its delimiter changes nothing:
   * parentheses do not count and other quote characters do not close it.
   */
  lemma {:induction false} QuotedRunSkipped(text: string, i: nat, j: nat, n: int, d: char)
    requires i <= j <= |text|
    requires forall k :: i <= k < j ==> text[k] != d
    ensures ScanLine(text, i, Lexer(n, InString(d))) == ScanLine(text, j, Lexer(n, InString(d)))
    decreases j - i
  {
    if i < j {
      assert Step(text, i, Lexer(n, InString(d))) == Lexer(n, InString(d));
      QuotedRunSkipped(text, i + 1, j, n, d);
    }
  }

  /** In code, a run without quote characters or parentheses changes nothing. */
  lemma {:induction false} CodeRunSkipped(text: string, i: nat, j: nat, n: int)
    requires i <= j <= |text|
    requires forall k :: i <= k < j ==> !IsQuoteChar(text[k]) && text[k] != '(' && text[k] != ')'
    ensures ScanLine(text, i, Lexer(n, Code)) == ScanLine(text, j, Lexer(n, Code))
    decreases j - i
  {
    if i < j {
      assert Step(text, i, Lexer(n, Code)) == Lexer(n, Code);
      CodeRunSkipped(text, i + 1, j, n);
    }
  }

  /** In code, a string from its opening delimiter to its closing one changes nothing. */
  lemma QuotedStringSkipped(text: string, open: nat, close: nat, n: int, d: char)
    requires open < close < |text| && IsQuoteChar(d) && text[open] == d && text[close] == d
    requires forall k :: open < k < close ==> text[k] != d
    requires text[close - 1] != '\\'
    ensures ScanLine(text, open, Lexer(n, Code)) == ScanLine(text, close + 1, Lexer(n, Code))
  {
    assert Step(text, open, Lexer(n, Code)) == Lexer(n, InString(d));
    QuotedRunSkipped(text, open + 1, close, n, d);
    assert Step(text, close, Lexer(n, InString(d))) == Lexer(n, Code);
  }

  /** In code, an opening parenthesis that does not close anything deepens the nesting by one. */
  lemma OpenParenStep(text: string, i: nat, n: int)
    requires i < |text| && text[i] == '('
    ensures ScanLine(text, i, Lexer(n, Code)) == ScanLine(text, i + 1, Lexer(n + 1, Code))
  {
  }

  /** No quote character and no parenthesis: a stretch of code the scanner passes over. */
  predicate PlainCode(s: string) {
    forall k :: 0 <= k < |s| ==> !IsQuoteChar(s[k]) && s[k] != '(' && s[k] != ')'
  }

  /**
   * A call whose only argument is quoted ends at its own closing parenthesis, on its
   * own line, whatever parentheses and other quote characters the quoted text holds.
   */
  lemma QuotedArgumentCloses(callee: string, body: string, d: char)
    requires PlainCode(callee) && IsQuoteChar(d)
    requires forall k :: 0 <= k < |body| ==> body[k] != d
    requires body != [] ==> body[|body| - 1] != '\\'
    ensures var t := callee + "(" + [d] + body + [d] + ")";
      ScanLine(t, 0, Lexer(0, Code)) == Closed(|t| - 1)
  {
    var t := callee + "(" + [d] + body + [d] + ")";
    var a := |callee|;
    var b := a + 2 + |body|;
    assert t[..a] == callee && t[a] == '(' && t[a + 1] == d && t[a + 2..b] == body && t[b] == d && t[b + 1] == ')';
    CodeRunSkipped(t, 0, a, 0);
    OpenParenStep(t, a, 0);
    assert t[b - 1] != '\\';
    QuotedStringSkipped(t, a + 1, b, 1, d);
    SkipWhitespaceOver(t, b + 2, b + 2);
    assert ClosesAt(t, b + 1, Lexer(1, Code));
  }

  /**
   * `console.log("a, (b")`: the parenthesis inside the string does not count, and
   * the call ends on its own line.
   */
  lemma QuotedParenExample(doc: Document)
    requires doc == ["console.log(\"a, (b\")"]
    ensures ConsoleLogEnd(doc, 0) == Some(0)
  {
    var callee, body := "console.log", "a, (b";
    assert doc[0] == callee + "(" + ['"'] + body + ['"'] + ")";
    QuotedArgumentCloses(callee, body, '"');
  }

  /** A delimiter right after a backslash on the same line leaves the string open. */
  lemma EscapedDelimiterStaysOpen(text: string, i: nat, n: int, d: char)
    requires 0 < i < |text| && text[i] == d && text[i - 1] == '\\'
    ensures ScanLine(text, i, Lexer(n, InString(d))) == ScanLine(text, i + 1, Lexer(n, InString(d)))
  {
    assert Step(text, i, Lexer(n, InString(d))) == Lexer(n, InString(d));
    assert !ClosesAt(text, i, Lexer(n, InString(d)));
  }

  /** A delimiter at the start of a line closes the string, whatever ended the line before. */
  lemma EscapeNeverCrossesLineStart(text: string, n: int, d: char)
    requires 0 < |text| && text[0] == d && IsQuoteChar(d)
    ensures ScanLine(text, 0, Lexer(n, InString(d))) == ScanLine(text, 1, Lexer(n, Code))
  {
    assert Step(text, 0, Lexer(n, InString(d))) == Lexer(n, Code);
  }

  /** A line inside a string that lacks the delimiter is passed over with the state unchanged. */
  lemma QuotedLinePassesThrough(doc: Document, l: nat, n: int, d: char)
    requires l < |doc| && forall k :: 0 <= k < |doc[l]| ==> doc[l][k] != d
    ensures ScanFrom(doc, l, Lexer(n, InString(d))) == ScanFrom(doc, l + 1, Lexer(n, InString(d)))
  {
    QuotedRunSkipped(doc[l], 0, |doc[l]|, n, d);
  }

  /** A zero-depth `)` followed by more code on the line does not end the call; the scan goes on. */
  lemma {:induction false} UnacceptedCloseContinues(text: string, i: nat, st: Lexer)
    requires i < |text| && text[i] == ')' && st.quote == Code && st.openParens == 1
    requires !RestAccepts(text, i)
    ensures ScanLine(text, i, st) == ScanLine(text, i + 1, Lexer(0, Code))
  {
    assert Step(text, i, st) == Lexer(0, Code);
  }

  // `findConsoleLogs`.

  /** The span recorded for an unconsumed line `l` of the selection ending at `endLine`, if any. */
  function SpanAt(doc: Document, l: nat, endLine: nat): (r: Option<ConsoleLogRange>)
    requires l <= endLine < |doc|
    ensures r.Some? ==> r.value.startLine == l <= r.value.endLine <= endLine
  {
    if !IsConsoleLogStart(doc[l]) then None
    else match ExtractConsoleMethod(doc[l])
      case None => None
      case Some(m) =>
        match ConsoleLogEnd(doc, l)
        case None => None
        case Some(e) => if e <= endLine then Some(ConsoleLogRange(l, e, m)) else None
  }

  /** Per line `l` of `[0, n)`, the span `SpanAt` gives it for the selection ending at `endLine`. */
  function SpanTable(doc: Document, endLine: nat, n: nat): (table: seq<Option<ConsoleLogRange>>)
    requires n <= endLine + 1 <= |doc|
    ensures |table| == n
  {
    if n == 0 then [] else SpanTable(doc, endLine, n - 1) + [SpanAt(doc, n - 1, endLine)]
  }

  lemma {:induction false} SpanTableAt(doc: Document, endLine: nat, n: nat, l: nat)
    requires n <= endLine + 1 <= |doc| && l < n
    ensures SpanTable(doc, endLine, n)[l] == SpanAt(doc, l, endLine)
  {
    if l < n - 1 {
      SpanTableAt(doc, endLine, n - 1, l);
    }
  }

  lemma SpanTableWellFormed(doc: Document, endLine: nat)
    requires endLine < |doc|
    ensures WellFormedTable(SpanTable(doc, endLine, endLine + 1))
  {
    var table := SpanTable(doc, endLine, endLine + 1);
    forall l | 0 <= l < |table| && table[l].Some?
      ensures table[l].value.startLine == l && l <= table[l].value.endLine < |table|
    {
      SpanTableAt(doc, endLine, endLine + 1, l);
    }
  }

  /** Every entry of the table is a span that starts on its own line and ends within the table. */
  predicate WellFormedTable(table: seq<Option<ConsoleLogRange>>) {
    forall l :: 0 <= l < |table| && table[l].Some? ==>
      table[l].value.startLine == l && l <= table[l].value.endLine < |table|
  }

  /** The spans collected from line `lineNum` on, when the lines before `next` are consumed. */
  function Collect(table: seq<Option<ConsoleLogRange>>, lineNum: nat, next: nat): seq<ConsoleLogRange>
    decreases |table| - lineNum
  {
    if lineNum >= |table| then []
    else if lineNum < next then Collect(table, lineNum + 1, next)
    else match table[lineNum]
      case None => Collect(table, lineNum + 1, next)
      case Some(r) => [r] + Collect(table, lineNum + 1, r.endLine + 1)
  }

  /** What `findConsoleLogs` returns for the selection `[startLine, endLine]`. */
  function ConsoleLogs(doc: Document, startLine: nat, endLine: nat): seq<ConsoleLogRange>
    requires endLine < |doc|
  {
    Collect(SpanTable(doc, endLine, endLine + 1), startLine, 0)
  }

  /** `findConsoleLogs`. */
  method FindConsoleLogs(doc: Document, startLine: nat, endLine: nat) returns (consoleLogs: seq<ConsoleLogRange>)
    requires endLine < |doc|
    ensures consoleLogs == ConsoleLogs(doc, startLine, endLine)
  {
    consoleLogs := [];
    var processedLines: set<nat> := {};
    ghost var table := SpanTable(doc, endLine, endLine + 1);
    ghost var goal := ConsoleLogs(doc, startLine, endLine);
    ghost var next: nat := 0;
    var lineNum := startLine;
    if startLine > endLine {
      // An empty selection: the loop would not run.
      return;
    }
    while lineNum <= endLine
      invariant startLine <= lineNum <= endLine + 1
      invariant forall i: nat :: lineNum <= i ==> (i in processedLines <==> i < next)
      invariant goal == consoleLogs + Collect(table, lineNum, next)
    {
      if lineNum in processedLines {
        CollectSkip(table, lineNum, next);
      } else {
        var span := SpanStartingAt(doc, lineNum, endLine);
        if span.Some? {
          var r := span.value;
          processedLines := MarkProcessed(processedLines, lineNum, r.endLine);
          CollectTake(table, lineNum, next, r);
          SeqAssoc(consoleLogs, [r], Collect(table, lineNum + 1, r.endLine + 1));
          consoleLogs := consoleLogs + [r];
          next := r.endLine + 1;
        } else {
          CollectSkip(table, lineNum, next);
        }
      }
      lineNum := lineNum + 1;
    }
  }

  /** The inner loop of `findConsoleLogs`: every line of `[first, last]` is marked processed. */
  method MarkProcessed(processedLines: set<nat>, first: nat, last: nat) returns (marked: set<nat>)
    requires first <= last
    ensures forall j: nat :: j in marked <==> j in processedLines || first <= j <= last
  {
    marked := processedLines;
    var i := first;
    while i <= last
      invariant first <= i <= last + 1
      invariant forall j: nat :: j in marked <==> j in processedLines || first <= j < i
    {
      marked := marked + {i};
      i := i + 1;
    }
  }

  /**
   * The body of `findConsoleLogs`' loop for an unprocessed line: a console call opening
   * on the line, naming a method, and closing within the selection.
   */
  method SpanStartingAt(doc: Document, lineNum: nat, endLine: nat) returns (span: Option<ConsoleLogRange>)
    requires lineNum <= endLine < |doc|
    ensures span.Some? ==> span.value.startLine == lineNum <= span.value.endLine <= endLine
    ensures span == SpanTable(doc, endLine, endLine + 1)[lineNum]
  {
    SpanTableAt(doc, endLine, endLine + 1, lineNum);
    span := None;
    var lineText := doc[lineNum];
    if IsConsoleLogStart(lineText) {
      var found := ExtractConsoleMethod(lineText);
      if found.Some? {
        var endLineNum := FindConsoleLogEnd(doc, lineNum);
        if endLineNum.Some? && endLineNum.value <= endLine {
          span := Some(ConsoleLogRange(lineNum, endLineNum.value, found.value));
        }
      }
    }
  }

  /** A line already inside a recorded span, or one that opens none, adds nothing. */
  lemma CollectSkip(table: seq<Option<ConsoleLogRange>>, lineNum: nat, next: nat)
    requires lineNum < |table| && (lineNum < next || table[lineNum].None?)
    ensures Collect(table, lineNum, next) == Collect(table, lineNum + 1, next)
  {
  }

  /** A line past the last recorded span that opens span `r` records it and skips to its end. */
  lemma CollectTake(table: seq<Option<ConsoleLogRange>>, lineNum: nat, next: nat, r: ConsoleLogRange)
    requires lineNum < |table| && next <= lineNum && table[lineNum] == Some(r)
    ensures Collect(table, lineNum, next) == [r] + Collect(table, lineNum + 1, r.endLine + 1)
  {
  }

  lemma SeqAssoc<T>(a: seq<T>, b: seq<T>, c: seq<T>)
    ensures a + (b + c) == (a + b) + c
  {
  }

  /** Each collected span is its start line's entry, at or after `lineNum` and `next`. */
  lemma {:induction false} CollectEntries(table: seq<Option<ConsoleLogRange>>, lineNum: nat, next: nat)
    requires WellFormedTable(table)
    ensures forall k :: 0 <= k < |Collect(table, lineNum, next)| ==>
      var r := Collect(table, lineNum, next)[k];
      lineNum <= r.startLine < |table| && next <= r.startLine && table[r.startLine] == Some(r)
    decreases |table| - lineNum
  {
    if lineNum < |table| {
      if lineNum < next || table[lineNum].None? {
        CollectEntries(table, lineNum + 1, next);
        assert Collect(table, lineNum, next) == Collect(table, lineNum + 1, next);
      } else {
        var r := table[lineNum].value;
        CollectEntries(table, lineNum + 1, r.endLine + 1);
        var rs, rest := Collect(table, lineNum, next), Collect(table, lineNum + 1, r.endLine + 1);
        assert rs == [r] + rest;
        forall k | 1 <= k < |rs| ensures rs[k] == rest[k - 1] {
        }
      }
    }
  }

  /** Each collected span ends before the next one begins. */
  lemma {:induction false} CollectOrdered(table: seq<Option<ConsoleLogRange>>, lineNum: nat, next: nat)
    requires WellFormedTable(table)
    ensures forall k :: 0 <= k < |Collect(table, lineNum, next)| - 1 ==>
      Collect(table, lineNum, next)[k].endLine < Collect(table, lineNum, next)[k + 1].startLine
    decreases |table| - lineNum
  {
    if lineNum < |table| {
      if lineNum < next || table[lineNum].None? {
        CollectOrdered(table, lineNum + 1, next);
        assert Collect(table, lineNum, next) == Collect(table, lineNum + 1, next);
      } else {
        var r := table[lineNum].value;
        CollectOrdered(table, lineNum + 1, r.endLine + 1);
        CollectEntries(table, lineNum + 1, r.endLine + 1);
        var rs, rest := Collect(table, lineNum, next), Collect(table, lineNum + 1, r.endLine + 1);
        assert rs == [r] + rest;
        forall k | 1 <= k < |rs| ensures rs[k] == rest[k - 1] {
        }
      }
    }
  }

  /** Every line from `lineNum` and `next` on that has an entry lies within a collected span. */
  lemma {:induction false} CollectCovers(table: seq<Option<ConsoleLogRange>>, lineNum: nat, next: nat, l: nat)
    requires WellFormedTable(table)
    requires lineNum <= l < |table| && next <= l && table[l].Some?
    ensures exists k :: (0 <= k < |Collect(table, lineNum, next)| &&
      Collect(table, lineNum, next)[k].startLine <= l <= Collect(table, lineNum, next)[k].endLine)
    decreases |table| - lineNum
  {
    var rs := Collect(table, lineNum, next);
    if lineNum < next || table[lineNum].None? {
      assert l != lineNum;
      CollectCovers(table, lineNum + 1, next, l);
      assert rs == Collect(table, lineNum + 1, next);
    } else {
      var r := table[lineNum].value;
      var rest := Collect(table, lineNum + 1, r.endLine + 1);
      assert rs == [r] + rest;
      if l <= r.endLine {
        assert rs[0].startLine <= l <= rs[0].endLine;
      } else {
        CollectCovers(table, lineNum + 1, r.endLine + 1, l);
        var k :| 0 <= k < |rest| && rest[k].startLine <= l <= rest[k].endLine;
        assert rs[k + 1] == rest[k];
      }
    }
  }

  /** `findConsoleLogs` keeps ordered, disjoint spans inside the selection, and misses no call that fits. */
  lemma ConsoleLogsSound(doc: Document, startLine: nat, endLine: nat)
    requires endLine < |doc|
    ensures var rs := ConsoleLogs(doc, startLine, endLine);
      && (forall k :: 0 <= k < |rs| ==>
            startLine <= rs[k].startLine <= rs[k].endLine <= endLine
            && SpanAt(doc, rs[k].startLine, endLine) == Some(rs[k]))
      && (forall k :: 0 <= k < |rs| - 1 ==> rs[k].endLine < rs[k + 1].startLine)
      && (forall l :: startLine <= l <= endLine && SpanAt(doc, l, endLine).Some? ==>
            exists k :: 0 <= k < |rs| && rs[k].startLine <= l <= rs[k].endLine)
  {
    var rs := ConsoleLogs(doc, startLine, endLine);
    var table := SpanTable(doc, endLine, endLine + 1);
    SpanTableWellFormed(doc, endLine);
    CollectEntries(table, startLine, 0);
    CollectOrdered(table, startLine, 0);
    forall l | startLine <= l <= endLine && SpanAt(doc, l, endLine).Some?
      ensures exists k :: 0 <= k < |rs| && rs[k].startLine <= l <= rs[k].endLine
    {
      SpanTableAt(doc, endLine, endLine + 1, l);
      CollectCovers(table, startLine, 0, l);
    }
    forall k | 0 <= k < |rs| ensures SpanAt(doc, rs[k].startLine, endLine) == Some(rs[k]) {
      SpanTableAt(doc, endLine, endLine + 1, rs[k].startLine);
    }
  }

  /** An entry is recorded exactly for a line that opens a call whose end the scanner finds within the selection. */
  lemma SpanAtMeaning(doc: Document, l: nat, endLine: nat)
    requires l <= endLine < |doc|
    ensures SpanAt(doc, l, endLine).Some? <==>
      IsConsoleLogStart(doc[l]) && ConsoleLogEnd(doc, l).Some? && ConsoleLogEnd(doc, l).value <= endLine
    ensures SpanAt(doc, l, endLine).Some? ==>
      && ExtractConsoleMethod(doc[l]) == Some(SpanAt(doc, l, endLine).value.consoleMethod)
      && ConsoleLogEnd(doc, l) == Some(SpanAt(doc, l, endLine).value.endLine)
  {
    if IsConsoleLogStart(doc[l]) {
      ConsoleLogStartIsPrefixTest(doc[l]);
      var m :| OpensCallAt(Trim(doc[l]), 0, m);
      StartYieldsMethod(doc[l], m);
    }
  }
}
