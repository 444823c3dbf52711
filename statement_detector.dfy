/**
 * The statement-end classifier: from line text alone (the line and the one after
 * it), whether a debug statement may be inserted right after a line, and the lines
 * of a selection for which that holds.
 */
module StatementDetector {
  import opened Text
  import opened Host
  import opened Types

  // `isCommentLine`: a trimmed line opening with a line-comment marker, a block-comment opener or a star.
  predicate IsCommentLine(trimmed: string) {
    |trimmed| > 0 &&
    (trimmed[0] == '*' || (trimmed[0] == '/' && |trimmed| > 1 && (trimmed[1] == '/' || trimmed[1] == '*')))
  }

  /** The comment test is the three prefix tests of the source. */
  lemma CommentLineIsPrefixTest(trimmed: string)
    ensures IsCommentLine(trimmed) <==>
      StartsWith(trimmed, "//") || StartsWith(trimmed, "/*") || StartsWith(trimmed, "*")
  {
    if |trimmed| > 1 {
      assert trimmed[..2] == [trimmed[0], trimmed[1]];
    }
    if |trimmed| > 0 {
      assert trimmed[..1] == [trimmed[0]];
    }
  }

  /** `isBraceOnlyLine`: one brace, optionally followed by a semicolon. */
  predicate IsBraceOnlyLine(trimmed: string) {
    (|trimmed| == 1 || (|trimmed| == 2 && trimmed[1] == ';'))
    && (trimmed[0] == '{' || trimmed[0] == '}')
  }

  /** The brace test is the comparison with the four literals of the source. */
  lemma BraceOnlyLineIsLiteralTest(trimmed: string)
    ensures IsBraceOnlyLine(trimmed) <==>
      trimmed == "}" || trimmed == "{" || trimmed == "};" || trimmed == "{;"
  {
    if IsBraceOnlyLine(trimmed) && |trimmed| == 2 {
      assert trimmed == [trimmed[0], ';'];
    }
  }

  /** The line ends in `;` or `}`. */
  predicate EndsStatement(trimmed: string) {
    |trimmed| > 0 && (trimmed[|trimmed| - 1] == ';' || trimmed[|trimmed| - 1] == '}')
  }

  lemma EndsStatementIsSuffixTest(trimmed: string)
    ensures EndsStatement(trimmed) <==> EndsWith(trimmed, ";") || EndsWith(trimmed, "}")
  {
    if |trimmed| > 0 {
      assert trimmed[|trimmed| - 1..] == [trimmed[|trimmed| - 1]];
    }
  }

  /**
   * The endings of the ten `incompletePatterns`, each tested as `<token>\s*$`; the
   * operator class (`+`, `-`, `*`, `/`, `%`) is spelled out as its five characters, giving fourteen tokens.
   */
  const ContinuationTokens: seq<string> :=
    [",", "(", "[", ".", "+", "-", "*", "/", "%", "&&", "||", "?", ":", "="]

  /** The characters that make up a one-character continuation token. */
  predicate IsContinuationChar(c: char) {
    c == ',' || c == '(' || c == '[' || c == '.' || c == '+' || c == '-' || c == '*'
    || c == '/' || c == '%' || c == '?' || c == ':' || c == '='
  }

  /** The text ends in a one-character token, or in `&&` or `||`. */
  predicate EndsInContinuation(t: string) {
    |t| > 0 &&
    (IsContinuationChar(t[|t| - 1])
     || (|t| > 1 && t[|t| - 2] == t[|t| - 1] && (t[|t| - 1] == '&' || t[|t| - 1] == '|')))
  }

  /** Some entry of `incompletePatterns` matches: once trailing whitespace is dropped, the text ends in a token. */
  predicate HasContinuationEnding(s: string) {
    EndsInContinuation(TrimEnd(s))
  }

  /**
   * The regular expression `<token>\s*$` matches `s`: the token occurs followed by
   * nothing but whitespace.
   */
  ghost predicate MatchesTrailing(s: string, token: string) {
    exists p: nat :: OccursAt(s, token, p) && AllWhitespace(s[p + |token|..])
  }

  /** For a token ending in a non-whitespace character, `<token>\s*$` is a suffix test on the trimmed end. */
  lemma MatchesTrailingIsSuffix(s: string, token: string)
    requires token != [] && !IsWhitespace(token[|token| - 1])
    ensures MatchesTrailing(s, token) <==> EndsWith(TrimEnd(s), token)
  {
    if EndsWith(TrimEnd(s), token) {
      SuffixMatchesTrailing(s, token);
    }
    if MatchesTrailing(s, token) {
      var p: nat :| OccursAt(s, token, p) && AllWhitespace(s[p + |token|..]);
      TrailingMatchIsSuffix(s, token, p);
    }
  }

  lemma SuffixMatchesTrailing(s: string, token: string)
    requires EndsWith(TrimEnd(s), token)
    ensures MatchesTrailing(s, token)
  {
    var t := TrimEnd(s);
    var p: nat := |t| - |token|;
    assert t == s[..|t|] && p + |token| == |t|;
    assert s[p..p + |token|] == t[p..];
    assert OccursAt(s, token, p) && AllWhitespace(s[p + |token|..]);
  }

  lemma TrailingMatchIsSuffix(s: string, token: string, p: nat)
    requires token != [] && !IsWhitespace(token[|token| - 1])
    requires OccursAt(s, token, p) && AllWhitespace(s[p + |token|..])
    ensures EndsWith(TrimEnd(s), token)
  {
    var t := TrimEnd(s);
    var q := p + |token|;
    assert s[q - 1] == token[|token| - 1];
    assert |t| == q;
    assert t[|t| - |token|..] == s[p..q];
  }

  /** The hand-written ending test is the disjunction of `<token>\s*$` over the fourteen tokens, that is, of the ten patterns. */
  lemma ContinuationEndingIsPatternList(s: string)
    ensures HasContinuationEnding(s) <==>
      exists k | 0 <= k < |ContinuationTokens| :: MatchesTrailing(s, ContinuationTokens[k])
  {
    forall k | 0 <= k < |ContinuationTokens|
      ensures MatchesTrailing(s, ContinuationTokens[k]) <==> EndsWith(TrimEnd(s), ContinuationTokens[k])
    {
      MatchesTrailingIsSuffix(s, ContinuationTokens[k]);
    }
    EndingIsSuffixList(TrimEnd(s));
  }

  /** The character test is the disjunction of the suffix tests for the fourteen tokens. */
  lemma EndingIsSuffixList(t: string)
    ensures EndsInContinuation(t) <==>
      exists k | 0 <= k < |ContinuationTokens| :: EndsWith(t, ContinuationTokens[k])
  {
    if |t| > 0 {
      var n := |t|;
      assert t[n - 1..] == [t[n - 1]];
      if n > 1 {
        assert t[n - 2..] == [t[n - 2], t[n - 1]];
      }
    }
    if EndsInContinuation(t) {
      var k := EndingToken(t);
      assert EndsWith(t, ContinuationTokens[k]);
    }
  }

  /** The index of the token a text ending in a continuation ends with. */
  function EndingToken(t: string): (k: nat)
    requires EndsInContinuation(t)
    ensures k < |ContinuationTokens| && EndsWith(t, ContinuationTokens[k])
  {
    var n := |t|;
    var c := t[n - 1];
    assert t[n - 1..] == [c];
    if n > 1 && t[n - 2] == c && c == '&' then
      assert t[n - 2..] == [c, c]; 9
    else if n > 1 && t[n - 2] == c && c == '|' then
      assert t[n - 2..] == [c, c]; 10
    else if c == ',' then 0 else if c == '(' then 1 else if c == '[' then 2
    else if c == '.' then 3 else if c == '+' then 4 else if c == '-' then 5
    else if c == '*' then 6 else if c == '/' then 7 else if c == '%' then 8
    else if c == '?' then 11 else if c == ':' then 12 else 13
  }

  /** A next line exists, is not blank and is not a comment line. */
  predicate NextLineIsCode(doc: Document, lineNum: nat) {
    lineNum + 1 < |doc| && var next := Trim(doc[lineNum + 1]); |next| > 0 && !IsCommentLine(next)
  }

  /** `isIncompleteStatement`: a continuation ending, and the next line carries on with code. */
  predicate IsIncompleteStatement(trimmed: string, doc: Document, lineNum: nat) {
    HasContinuationEnding(trimmed) && NextLineIsCode(doc, lineNum)
  }

  /**
   * `isTemplateStringMiddleLine`: an odd number of backticks in the untrimmed text, and
   * a next line that is neither blank nor opens with `//` (the only comment form checked here).
   */
  predicate IsTemplateStringMiddleLine(lineText: string, doc: Document, lineNum: nat) {
    CountChar(lineText, '`') % 2 != 0 && lineNum + 1 < |doc|
    && var next := Trim(doc[lineNum + 1]);
    |next| > 0 && !(|next| > 1 && next[0] == '/' && next[1] == '/')
  }

  /** Neither blank, nor a comment, nor a brace alone: the lines the later rules look at. */
  predicate IsCodeLine(lineText: string) {
    var t := Trim(lineText);
    |t| > 0 && !IsCommentLine(t) && !IsBraceOnlyLine(t)
  }

  /**
   * `isCompleteStatement`: the first rule that applies decides. After the two vetoes
   * every closing rule of the source (the next line is blank or a comment, there is
   * no next line, anything else) answers true.
   */
  function IsCompleteStatement(lineText: string, doc: Document, lineNum: nat): bool {
    var trimmed := Trim(lineText);
    if |trimmed| == 0 then false
    else if IsCommentLine(trimmed) then false
    else if IsBraceOnlyLine(trimmed) then false
    else if EndsStatement(trimmed) then true
    else if IsIncompleteStatement(trimmed, doc, lineNum) then false
    else if IsTemplateStringMiddleLine(lineText, doc, lineNum) then false
    else true
  }

  /** The decision list of `isCompleteStatement`, rule by rule. */
  lemma CompleteStatementRules(lineText: string, doc: Document, lineNum: nat)
    ensures AllWhitespace(lineText) ==> !IsCompleteStatement(lineText, doc, lineNum)
    ensures IsCommentLine(Trim(lineText)) ==> !IsCompleteStatement(lineText, doc, lineNum)
    ensures IsBraceOnlyLine(Trim(lineText)) ==> !IsCompleteStatement(lineText, doc, lineNum)
    ensures IsCodeLine(lineText) && EndsStatement(Trim(lineText)) ==> IsCompleteStatement(lineText, doc, lineNum)
    ensures IsCodeLine(lineText) && !EndsStatement(Trim(lineText)) ==>
      (IsCompleteStatement(lineText, doc, lineNum) <==>
        !(HasContinuationEnding(Trim(lineText)) && NextLineIsCode(doc, lineNum))
        && !IsTemplateStringMiddleLine(lineText, doc, lineNum))
    ensures IsCodeLine(lineText) && lineNum + 1 >= |doc| ==> IsCompleteStatement(lineText, doc, lineNum)
    ensures IsCompleteStatement(lineText, doc, lineNum) ==> IsCodeLine(lineText)
  {
  }

  /** The indices of `[startLine, stop)` whose flag is set, in increasing order. */
  function Selected(flags: seq<bool>, startLine: nat, stop: nat): seq<nat>
    requires stop <= |flags|
  {
    if stop <= startLine then []
    else
      Selected(flags, startLine, stop - 1) + (if flags[stop - 1] then [stop - 1] else [])
  }

  /** `Selected` holds exactly the flagged indices of the range, each once, in strictly increasing order. */
  lemma {:induction false} SelectedExact(flags: seq<bool>, startLine: nat, stop: nat)
    requires stop <= |flags|
    ensures forall k :: 0 <= k < |Selected(flags, startLine, stop)| ==>
      startLine <= Selected(flags, startLine, stop)[k] < stop && flags[Selected(flags, startLine, stop)[k]]
    ensures forall j, k :: 0 <= j < k < |Selected(flags, startLine, stop)| ==>
      Selected(flags, startLine, stop)[j] < Selected(flags, startLine, stop)[k]
    ensures forall l :: startLine <= l < stop && flags[l] ==> l in Selected(flags, startLine, stop)
  {
    if stop > startLine {
      SelectedExact(flags, startLine, stop - 1);
      var prev := Selected(flags, startLine, stop - 1);
      var r := Selected(flags, startLine, stop);
      assert r == prev + (if flags[stop - 1] then [stop - 1] else []);
      forall l | startLine <= l < stop && flags[l] ensures l in r {
        if l < stop - 1 {
          assert l in prev;
        } else {
          assert r[|r| - 1] == l;
        }
      }
    }
  }

  /** For each of the first `n` lines, whether it ends a complete statement. */
  function FlagsBefore(doc: Document, n: nat): (flags: seq<bool>)
    requires n <= |doc|
    ensures |flags| == n
  {
    if n == 0 then [] else FlagsBefore(doc, n - 1) + [IsCompleteStatement(doc[n - 1], doc, n - 1)]
  }

  lemma {:induction false} FlagsBeforeAt(doc: Document, n: nat, l: nat)
    requires l < n <= |doc|
    ensures FlagsBefore(doc, n)[l] == IsCompleteStatement(doc[l], doc, l)
  {
    if l < n - 1 {
      FlagsBeforeAt(doc, n - 1, l);
    }
  }

  /** For each line of the document, whether it ends a complete statement. */
  function CompletionFlags(doc: Document): (flags: seq<bool>)
    ensures |flags| == |doc|
  {
    FlagsBefore(doc, |doc|)
  }

  /** The lines of `[startLine, endLine]` that end a complete statement, in increasing order. */
  function CompleteLines(doc: Document, startLine: nat, endLine: nat): seq<nat>
    requires endLine < |doc|
  {
    Selected(CompletionFlags(doc), startLine, endLine + 1)
  }

  /**
   * `CompleteLines` holds exactly the complete lines of the range, each once, in
   * strictly increasing order.
   */
  lemma CompleteLinesExact(doc: Document, startLine: nat, endLine: nat)
    requires endLine < |doc|
    ensures var r := CompleteLines(doc, startLine, endLine);
      && (forall k :: 0 <= k < |r| ==> startLine <= r[k] <= endLine && IsCompleteStatement(doc[r[k]], doc, r[k]))
      && (forall j, k :: 0 <= j < k < |r| ==> r[j] < r[k])
      && (forall l :: startLine <= l <= endLine && IsCompleteStatement(doc[l], doc, l) ==> l in r)
  {
    var flags := CompletionFlags(doc);
    SelectedExact(flags, startLine, endLine + 1);
    var r := CompleteLines(doc, startLine, endLine);
    forall k | 0 <= k < |r| ensures IsCompleteStatement(doc[r[k]], doc, r[k]) {
      FlagsBeforeAt(doc, |doc|, r[k]);
    }
    forall l | startLine <= l <= endLine && IsCompleteStatement(doc[l], doc, l) ensures l in r {
      FlagsBeforeAt(doc, |doc|, l);
    }
  }

  /** The bounds half of `CompleteLinesExact`: every listed line lies in the range. */
  lemma CompleteLinesWithin(doc: Document, startLine: nat, endLine: nat)
    requires endLine < |doc|
    ensures var r := CompleteLines(doc, startLine, endLine);
      forall k :: 0 <= k < |r| ==> startLine <= r[k] <= endLine
  {
    SelectedExact(CompletionFlags(doc), startLine, endLine + 1);
  }

  /** One more line of the range adds that line when, and only when, it is complete. */
  lemma CompleteLinesStep(doc: Document, startLine: nat, lineNum: nat)
    requires startLine <= lineNum < |doc|
    ensures Selected(CompletionFlags(doc), startLine, lineNum + 1)
      == Selected(CompletionFlags(doc), startLine, lineNum) + (if IsCompleteStatement(doc[lineNum], doc, lineNum) then [lineNum] else [])
  {
    FlagsBeforeAt(doc, |doc|, lineNum);
  }

  /** `getCompleteStatements`: one single-line range per complete line of the selection, in order. */
  method GetCompleteStatements(doc: Document, startLine: nat, endLine: nat) returns (statements: seq<StatementRange>)
    requires endLine < |doc|
    ensures var lines := CompleteLines(doc, startLine, endLine);
      |statements| == |lines| &&
      forall k :: 0 <= k < |statements| ==> statements[k] == StatementRange(lines[k], lines[k])
  {
    statements := [];
    if startLine > endLine {
      // An empty selection: the loop would not run.
      return;
    }
    var lineNum := startLine;
    while lineNum <= endLine
      invariant startLine <= lineNum <= endLine + 1
      invariant statements == LineRanges(Selected(CompletionFlags(doc), startLine, lineNum))
    {
      var lineText := doc[lineNum];
      CompleteLinesStep(doc, startLine, lineNum);
      if IsCompleteStatement(lineText, doc, lineNum) {
        LineRangesAppend(Selected(CompletionFlags(doc), startLine, lineNum), lineNum);
        statements := statements + [StatementRange(lineNum, lineNum)];
      }
      lineNum := lineNum + 1;
    }
  }

  /** A single-line range per line. */
  function LineRanges(lines: seq<nat>): seq<StatementRange>
  {
    seq(|lines|, k requires 0 <= k < |lines| => StatementRange(lines[k], lines[k]))
  }

  lemma LineRangesAppend(lines: seq<nat>, l: nat)
    ensures LineRanges(lines + [l]) == LineRanges(lines) + [StatementRange(l, l)]
  {
  }

  /** The last character of a trimmed line ending in a letter or digit matches no continuation token. */
  predicate EndsInOperand(trimmed: string) {
    |trimmed| > 0 && var c := trimmed[|trimmed| - 1]; IsDigit(c) || ('a' <= c <= 'z') || ('A' <= c <= 'Z')
  }

  /**
   * A code line without backticks whose text ends in a letter or digit is complete,
   * whatever the next line holds.
   */
  lemma OperandEndingIsComplete(lineText: string, doc: Document, lineNum: nat)
    requires IsCodeLine(lineText) && EndsInOperand(Trim(lineText)) && CountChar(lineText, '`') == 0
    ensures IsCompleteStatement(lineText, doc, lineNum)
  {
    var t := Trim(lineText);
    TrimUntrimmed(t);
    var c := t[|t| - 1];
    assert !IsContinuationChar(c) && c != '&' && c != '|';
    assert !HasContinuationEnding(t);
    assert !IsTemplateStringMiddleLine(lineText, doc, lineNum);
  }

  /**
   * A line carried on by an operator at the start of the NEXT line is still complete:
   * only the line's own ending is consulted.
   */
  lemma LeadingOperatorOnNextLineIsIgnored()
    ensures IsCompleteStatement("let b = 2", ["let a = 1;", "let b = 2", "  + 3;"], 1)
  {
    var s := "let b = 2";
    assert Trim(s) == s by {
      TrimUntrimmed(s);
    }
    assert IsCodeLine(s) && EndsInOperand(Trim(s));
    assert CountChar(s, '`') == 0 by {
      assert forall i :: 0 <= i < |s| ==> s[i] != '`';
    }
    OperandEndingIsComplete(s, ["let a = 1;", "let b = 2", "  + 3;"], 1);
  }

  /** A line ending in a continuation token followed by a line of code is not complete. */
  lemma ContinuedLineIsIncomplete(lineText: string, doc: Document, lineNum: nat)
    requires IsCodeLine(lineText) && HasContinuationEnding(Trim(lineText)) && NextLineIsCode(doc, lineNum)
    requires !EndsStatement(Trim(lineText))
    ensures !IsCompleteStatement(lineText, doc, lineNum)
  {
  }

  /** A line that opens and closes one template string is never read as the middle of a template. */
  lemma ClosedTemplateIsNoVeto(x: string, y: string, z: string, doc: Document, lineNum: nat)
    requires CountChar(x, '`') == 0 && CountChar(y, '`') == 0 && CountChar(z, '`') == 0
    ensures !IsTemplateStringMiddleLine(x + "`" + y + "`" + z, doc, lineNum)
  {
    var open := x + "`" + y;
    CountCharAround(x, '`', y, '`');
    CountCharAround(open, '`', z, '`');
    assert CountChar(open + "`" + z, '`') == 2;
  }

  /**
   * A line with an odd number of backticks, followed by a line that is neither blank
   * nor a `//` comment, is the middle of a template: not complete unless it ends in
   * `;` or `}`.
   */
  lemma OpenTemplateIsIncomplete(lineText: string, doc: Document, lineNum: nat)
    requires CountChar(lineText, '`') % 2 == 1
    requires lineNum + 1 < |doc| && |Trim(doc[lineNum + 1])| > 0 && !StartsWith(Trim(doc[lineNum + 1]), "//")
    requires !EndsStatement(Trim(lineText))
    ensures IsTemplateStringMiddleLine(lineText, doc, lineNum)
    ensures !IsCompleteStatement(lineText, doc, lineNum)
  {
    OddBackticksOpenTemplate(lineText, doc, lineNum);
    TemplateMiddleIsIncomplete(lineText, doc, lineNum);
  }

  /** An odd backtick count before a line that is neither blank nor a `//` comment is the template veto. */
  lemma OddBackticksOpenTemplate(lineText: string, doc: Document, lineNum: nat)
    requires CountChar(lineText, '`') % 2 == 1
    requires lineNum + 1 < |doc| && |Trim(doc[lineNum + 1])| > 0 && !StartsWith(Trim(doc[lineNum + 1]), "//")
    ensures IsTemplateStringMiddleLine(lineText, doc, lineNum)
  {
  }

  /** The template veto rejects every line that does not end in `;` or `}`. */
  lemma TemplateMiddleIsIncomplete(lineText: string, doc: Document, lineNum: nat)
    requires IsTemplateStringMiddleLine(lineText, doc, lineNum) && !EndsStatement(Trim(lineText))
    ensures !IsCompleteStatement(lineText, doc, lineNum)
  {
  }

  /** `const s = `a` followed by `b`;` is not complete: the statement goes on inside the template. */
  lemma OpenTemplateExample()
    ensures !IsCompleteStatement("const s = `a", ["const s = `a", "b`;"], 0)
  {
    var x, y := "const s = ", "a";
    assert CountChar(x, '`') == 0 by {
      assert forall i :: 0 <= i < |x| ==> x[i] != '`';
    }
    assert CountChar(y, '`') == 0;
    var next := "b`;";
    assert Trim(next) == next by {
      TrimUntrimmed(next);
    }
    assert Trim(x + "`" + y) == x + "`" + y by {
      TrimUntrimmed(x + "`" + y);
    }
    CountCharAround(x, '`', y, '`');
    OpenTemplateIsIncomplete(x + "`" + y, ["const s = `a", "b`;"], 0);
  }
}
