/**
 * The two commands of the extension: planning the insertion of a numbered debug
 * statement after each complete statement of a selection, and planning the deletion
 * of every console call found in a selection. The editor's `applyEdit` is a boolean
 * parameter: whether the editor accepted the planned edits.
 */
module DebugLogService {
  import opened Wrappers
  import opened Text
  import opened Host
  import opened Types
  import opened Constants
  import opened StatementDetector
  import opened ConsoleDetector

  // Settings of an insertion run.

  /** A JavaScript string value is truthy when it is present and not empty. */
  predicate Truthy(v: Option<string>) {
    v.Some? && v.value != []
  }

  /** `config.label ? ` ${config.label}` : ''`. */
  function LabelText(debugLabel: Option<string>): string {
    if Truthy(debugLabel) then " " + debugLabel.value else ""
  }

  /** `value || fallback`: an absent or empty setting falls back to the default. */
  function OrDefault(v: Option<string>, fallback: string): string {
    if Truthy(v) then v.value else fallback
  }

  // The inserted statement.

  /** The first argument of the inserted call: the `%c` directive, emoji, label and number. */
  function MessageText(emoji: string, labelText: string, index: nat): string {
    "%c" + emoji + labelText + " " + NatToString(index)
  }

  /** The CSS the second argument of the inserted call carries. */
  function StyleText(color: string, fontWeight: string): string {
    "color: " + color + "; font-weight: " + fontWeight
  }

  /** A `console.log` call with two single-quoted arguments, ended by `;`. */
  function LogCall(message: string, style: string): string {
    "console.log('" + message + "', '" + style + "');"
  }

  /** `generateDebugStatement`: a line break, the indentation, then the call. */
  function GenerateDebugStatement(
    emoji: string, labelText: string, index: nat, color: string, fontWeight: string,
    indent: string, eol: string): string
  {
    eol + indent + LogCall(MessageText(emoji, labelText, index), StyleText(color, fontWeight))
  }

  /** `line.text.match(/^(\s*)/)[1]` (the pattern always matches): the longest whitespace prefix. */
  function Indent(text: string): (r: string)
    ensures |r| <= |text| && r == text[..|r|] && AllWhitespace(r)
    ensures |r| < |text| ==> !IsWhitespace(text[|r|])
  {
    text[..SkipWhitespace(text, 0)]
  }

  /** Two strings of digits, each followed by a non-digit, that start equal texts are equal. */
  lemma DigitsPrefixUnique(a: string, x: string, b: string, y: string)
    requires forall i :: 0 <= i < |a| ==> IsDigit(a[i])
    requires forall i :: 0 <= i < |b| ==> IsDigit(b[i])
    requires x != [] && !IsDigit(x[0]) && y != [] && !IsDigit(y[0])
    requires a + x == b + y
    ensures a == b
  {
    var n := if |a| <= |b| then |a| else |b|;
    var c := (a + x)[n];
    assert c == (b + y)[n];
    assert !IsDigit(c);
    assert |a| == |b|;
    assert a == (a + x)[..|a|];
    assert b == (b + y)[..|b|];
  }

  /** The statement is a fixed text, the numeral, then a text starting with a quote. */
  lemma StatementSplitsAtNumber(
    emoji: string, labelText: string, i: nat, color: string, fontWeight: string,
    indent: string, eol: string)
    ensures GenerateDebugStatement(emoji, labelText, i, color, fontWeight, indent, eol)
      == (eol + indent + "console.log('" + "%c" + emoji + labelText + " ")
       + (NatToString(i) + ("', '" + StyleText(color, fontWeight) + "');"))
  {
  }

  /** Statements that differ only in their number differ: each inserted statement is numbered apart. */
  lemma NumberedStatementsDiffer(
    emoji: string, labelText: string, i: nat, j: nat, color: string, fontWeight: string,
    indent: string, eol: string)
    requires i != j
    ensures GenerateDebugStatement(emoji, labelText, i, color, fontWeight, indent, eol)
         != GenerateDebugStatement(emoji, labelText, j, color, fontWeight, indent, eol)
  {
    var p := eol + indent + "console.log('" + "%c" + emoji + labelText + " ";
    var q := "', '" + StyleText(color, fontWeight) + "');";
    var si, sj := NatToString(i), NatToString(j);
    var gi := GenerateDebugStatement(emoji, labelText, i, color, fontWeight, indent, eol);
    var gj := GenerateDebugStatement(emoji, labelText, j, color, fontWeight, indent, eol);
    StatementSplitsAtNumber(emoji, labelText, i, color, fontWeight, indent, eol);
    StatementSplitsAtNumber(emoji, labelText, j, color, fontWeight, indent, eol);
    if gi == gj {
      assert si + q == gi[|p|..];
      assert sj + q == gj[|p|..];
      DigitsPrefixUnique(si, q, sj, q);
      NatToStringInjective(i, j);
    }
  }

  // The pattern of the single-line fallback,
  // `^(\s*)(.*?)(\s*console\.(log|warn|error|info|debug)\s*\([^)]*\)\s*;?\s*)(.*)$`.
  // Group 1 takes all leading whitespace: giving any of it back to the lazy group 2
  // can only make group 2 cross a line terminator, never admit a new match. Group 2
  // then ends at the first index from which group 3 and group 5 can match; each of
  // those is deterministic once its start is fixed.

  /**
   * The alternation `console\.(log|warn|error|info|debug)` at `c`, trying
   * `ConsoleMethods[k..]` in order: the first method whose `console.<name>` is written
   * at `c`, or none when no method of the rest is.
   */
  function MethodFrom(text: string, c: nat, k: nat): (r: Option<ConsoleMethod>)
    requires k <= |ConsoleMethods|
    ensures r.Some? ==> k <= MethodRank(r.value) && OccursAt(text, "console." + MethodName(r.value), c)
    ensures r.Some? ==> forall n :: k <= n < MethodRank(r.value) ==>
      !OccursAt(text, "console." + MethodName(ConsoleMethods[n]), c)
    ensures r.None? ==> forall n :: k <= n < |ConsoleMethods| ==>
      !OccursAt(text, "console." + MethodName(ConsoleMethods[n]), c)
    decreases |ConsoleMethods| - k
  {
    if k == |ConsoleMethods| then None
    else if OccursAt(text, "console." + MethodName(ConsoleMethods[k]), c) then Some(ConsoleMethods[k])
    else MethodFrom(text, c, k + 1)
  }

  /** `\s*;?\s*` reads all of `s`: whitespace, at most one `;`, whitespace. */
  predicate TrailerRun(s: string) {
    AllWhitespace(s)
    || exists i :: 0 <= i < |s| && s[i] == ';' && AllWhitespace(s[..i]) && AllWhitespace(s[i + 1..])
  }

  /**
   * Group 3 read from `c` to `z` with method `m`: `console.<m>`, whitespace, the `(` at
   * `j`, no `)` until the one at `k`, then `\s*;?\s*` taken as far as it goes; group 5,
   * `(.*)$`, holds the rest, which therefore has no line terminator.
   */
  predicate CallGroup(text: string, c: nat, m: ConsoleMethod, j: nat, k: nat, z: nat) {
    var h := c + |"console." + MethodName(m)|;
    && h <= j < k < z <= |text|
    && OccursAt(text, "console." + MethodName(m), c)
    && AllWhitespace(text[h..j]) && text[j] == '('
    && (forall i :: j < i < k ==> text[i] != ')') && text[k] == ')'
    && TrailerRun(text[k + 1..z])
    && (z < |text| ==> !IsWhitespace(text[z]))
    && (z < |text| && text[z] == ';' ==> ';' in text[k + 1..z])
    && NoLineTerminator(text[z..])
  }

  /**
   * Where group 3 ends when it starts its call at `c`, with the method the alternation
   * picks; none when the rest of the pattern does not match from `c`.
   */
  function CallGroupEnd(text: string, c: nat): (r: Option<nat>)
    requires c <= |text|
    ensures r.Some? ==> c < r.value <= |text| && NoLineTerminator(text[r.value..])
    ensures r.Some? ==> MethodFrom(text, c, 0).Some?
    ensures r.Some? ==> exists j, k :: CallGroup(text, c, MethodFrom(text, c, 0).value, j, k, r.value)
  {
    match MethodFrom(text, c, 0)
    case None => None
    case Some(m) => CallGroupEndWith(text, c, m)
  }

  /** The rest of group 3 once the alternation has picked `m`: `\s*\([^)]*\)\s*;?\s*`, with `(.*)$` after it. */
  function CallGroupEndWith(text: string, c: nat, m: ConsoleMethod): (r: Option<nat>)
    requires OccursAt(text, "console." + MethodName(m), c)
    ensures r.Some? ==> c < r.value <= |text| && NoLineTerminator(text[r.value..])
    ensures r.Some? ==> exists j, k :: CallGroup(text, c, m, j, k, r.value)
  {
    var j := SkipWhitespace(text, c + |"console." + MethodName(m)|);
    if j == |text| || text[j] != '(' then None
    else match IndexOfFrom(text, ")", j + 1)
      case None => None
      case Some(k) =>
        var z := TrailerEndFrom(text, k);
        if NoLineTerminator(text[z..]) then
          CallGroupShape(text, c, m, j, k, z);
          Some(z)
        else None
  }

  /** Where the greedy `\s*;?\s*` after the `)` at `k` stops. */
  function TrailerEndFrom(text: string, k: nat): (z: nat)
    requires k < |text|
    ensures k < z <= |text|
  {
    var a := SkipWhitespace(text, k + 1);
    var b := if a < |text| && text[a] == ';' then a + 1 else a;
    SkipWhitespace(text, b)
  }

  /** The positions `CallGroupEnd` computes lay out a call group. */
  lemma CallGroupShape(text: string, c: nat, m: ConsoleMethod, j: nat, k: nat, z: nat)
    requires OccursAt(text, "console." + MethodName(m), c)
    requires c + |"console." + MethodName(m)| <= |text|
    requires j == SkipWhitespace(text, c + |"console." + MethodName(m)|) && j < |text| && text[j] == '('
    requires IndexOfFrom(text, ")", j + 1) == Some(k)
    requires z == TrailerEndFrom(text, k) && NoLineTerminator(text[z..])
    ensures CallGroup(text, c, m, j, k, z)
  {
    FirstCloseAfter(text, j, k);
    TrailerAfter(text, k);
  }

  /** `[^)]*\)` after the `(` at `j` stops at the first `)`, which `indexOf` finds. */
  lemma FirstCloseAfter(text: string, j: nat, k: nat)
    requires j < |text| && IndexOfFrom(text, ")", j + 1) == Some(k)
    ensures j < k < |text| && text[k] == ')' && forall i :: j < i < k ==> text[i] != ')'
  {
    assert text[k..k + 1] == ")";
    forall i | j < i < k ensures text[i] != ')' {
      assert !OccursAt(text, ")", i);
      assert text[i..i + 1] == [text[i]];
    }
  }

  /** The greedy `\s*;?\s*` after the `)` at `k` reads `text[k + 1..z]` and stops before anything it could take. */
  lemma TrailerAfter(text: string, k: nat)
    requires k < |text|
    ensures var z := TrailerEndFrom(text, k);
      && TrailerRun(text[k + 1..z])
      && (z < |text| ==> !IsWhitespace(text[z]))
      && (z < |text| && text[z] == ';' ==> ';' in text[k + 1..z])
  {
    var a := SkipWhitespace(text, k + 1);
    var b := if a < |text| && text[a] == ';' then a + 1 else a;
    var z := TrailerEndFrom(text, k);
    var t := text[k + 1..z];
    if b == a + 1 {
      var i := a - (k + 1);
      assert t[i] == text[a] == ';';
      assert t[..i] == text[k + 1..a];
      assert t[i + 1..] == text[b..z];
    } else {
      assert a == z;
    }
  }

  /**
   * The rest of the pattern matches from `c` exactly when a call group is laid out
   * there: `CallGroupEnd` is none precisely when no method, `(`, `)` and trailer fit.
   */
  lemma CallGroupEndMeaning(text: string, c: nat)
    requires c <= |text|
    ensures CallGroupEnd(text, c).None? <==> forall m: ConsoleMethod, j: nat, k: nat, z: nat :: !CallGroup(text, c, m, j, k, z)
  {
    forall m: ConsoleMethod, j: nat, k: nat, z: nat | CallGroup(text, c, m, j, k, z) ensures CallGroupEnd(text, c) == Some(z) {
      CallGroupEndComplete(text, c, m, j, k, z);
    }
  }

  /** A call group laid out from `c` is the one the pattern reads: the group ends at its `z`. */
  lemma CallGroupEndComplete(text: string, c: nat, m: ConsoleMethod, j: nat, k: nat, z: nat)
    requires c <= |text| && CallGroup(text, c, m, j, k, z)
    ensures CallGroupEnd(text, c) == Some(z)
  {
    MethodFromUnique(text, c, m);
    CallGroupEndVia(text, c, m);
    CallGroupRead(text, c, m, j, k, z);
  }

  /** Once the alternation picks `m`, the group is read with `m`. */
  lemma CallGroupEndVia(text: string, c: nat, m: ConsoleMethod)
    requires c <= |text| && MethodFrom(text, c, 0) == Some(m)
    ensures CallGroupEndWith(text, c, m) == CallGroupEnd(text, c)
  {
  }

  /** With the method fixed, a call group laid out from `c` is the one read. */
  lemma CallGroupRead(text: string, c: nat, m: ConsoleMethod, j: nat, k: nat, z: nat)
    requires CallGroup(text, c, m, j, k, z)
    ensures CallGroupEndWith(text, c, m) == Some(z)
  {
    var h := c + |"console." + MethodName(m)|;
    SkipWhitespaceOver(text, h, j);
    FirstCloseIsIndexOf(text, j, k);
    TrailerEnd(text, k, z);
    CallGroupEndWithAt(text, c, m, j, k, z);
  }

  /** `CallGroupEndWith` from the values its steps take. */
  lemma CallGroupEndWithAt(text: string, c: nat, m: ConsoleMethod, j: nat, k: nat, z: nat)
    requires OccursAt(text, "console." + MethodName(m), c)
    requires SkipWhitespace(text, c + |"console." + MethodName(m)|) == j && j < |text| && text[j] == '('
    requires IndexOfFrom(text, ")", j + 1) == Some(k)
    requires k < |text| && TrailerEndFrom(text, k) == z && NoLineTerminator(text[z..])
    ensures CallGroupEndWith(text, c, m) == Some(z)
  {
  }

  /** Only one method's `console.<name>` can be written at `c`, and the alternation picks it. */
  lemma MethodFromUnique(text: string, c: nat, m: ConsoleMethod)
    requires OccursAt(text, "console." + MethodName(m), c)
    ensures MethodFrom(text, c, 0) == Some(m)
  {
    assert OccursAt(text, "console." + MethodName(ConsoleMethods[MethodRank(m)]), c);
    var other := MethodFrom(text, c, 0).value;
    var p, q := "console." + MethodName(m), "console." + MethodName(other);
    assert text[c + 8] == text[c..c + |p|][8] == p[8];
    assert text[c + 8] == text[c..c + |q|][8] == q[8];
    FirstLetterDecides(m, other);
  }

  /** The five method names start with five different letters. */
  lemma FirstLetterDecides(m: ConsoleMethod, n: ConsoleMethod)
    requires ("console." + MethodName(m))[8] == ("console." + MethodName(n))[8]
    ensures m == n
  {
  }

  /** The first `)` after the `(` at `j` is where `indexOf` finds one. */
  lemma FirstCloseIsIndexOf(text: string, j: nat, k: nat)
    requires j < k < |text| && text[k] == ')' && forall i :: j < i < k ==> text[i] != ')'
    ensures IndexOfFrom(text, ")", j + 1) == Some(k)
  {
    assert text[k..k + 1] == ")";
    assert OccursAt(text, ")", k);
    var r := IndexOfFrom(text, ")", j + 1);
    assert r.Some?;
    assert text[r.value] == text[r.value..r.value + 1][0] == ')';
  }

  /** A trailer `\s*;?\s*` that stops where nothing more can be taken is the one read greedily. */
  lemma TrailerEnd(text: string, k: nat, z: nat)
    requires k < z <= |text| && TrailerRun(text[k + 1..z])
    requires z < |text| ==> !IsWhitespace(text[z])
    requires z < |text| && text[z] == ';' ==> ';' in text[k + 1..z]
    ensures TrailerEndFrom(text, k) == z
  {
    var t := text[k + 1..z];
    if AllWhitespace(t) {
      BlankTrailerEnd(text, k, z);
    } else {
      var i :| 0 <= i < |t| && t[i] == ';' && AllWhitespace(t[..i]) && AllWhitespace(t[i + 1..]);
      assert text[k + 1..k + 1 + i] == t[..i] && text[k + 2 + i..z] == t[i + 1..];
      SemicolonTrailerEnd(text, k, z, k + 1 + i);
    }
  }

  /** A trailer of whitespace only, not followed by whitespace or `;`, is read whole by `\s*` and `;?` takes nothing. */
  lemma BlankTrailerEnd(text: string, k: nat, z: nat)
    requires k < z <= |text| && AllWhitespace(text[k + 1..z])
    requires z < |text| ==> !IsWhitespace(text[z])
    requires z < |text| && text[z] == ';' ==> ';' in text[k + 1..z]
    ensures TrailerEndFrom(text, k) == z
  {
    var t := text[k + 1..z];
    SkipWhitespaceOver(text, k + 1, z);
    assert ';' !in t by {
      assert forall i :: 0 <= i < |t| ==> IsWhitespace(t[i]);
      assert !IsWhitespace(';');
    }
    SkipWhitespaceOver(text, z, z);
  }

  /** A trailer with its `;` at `p`: the first `\s*` stops at `p`, `;?` takes it, the second `\s*` reaches `z`. */
  lemma SemicolonTrailerEnd(text: string, k: nat, z: nat, p: nat)
    requires k < p < z <= |text| && text[p] == ';'
    requires AllWhitespace(text[k + 1..p]) && AllWhitespace(text[p + 1..z])
    requires z < |text| ==> !IsWhitespace(text[z])
    ensures TrailerEndFrom(text, k) == z
  {
    SkipWhitespaceOver(text, k + 1, p);
    SkipWhitespaceOver(text, p + 1, z);
  }

  /** Group 3 can start at `p`: its `\s*` reaches a call the rest of the pattern accepts. */
  predicate CallFrom(text: string, p: nat)
    requires p <= |text|
  {
    CallGroupEnd(text, SkipWhitespace(text, p)).Some?
  }

  /** Per index `0..|text|`, whether group 3 can start there. */
  function CallStarts(text: string): (r: seq<bool>)
    ensures |r| == |text| + 1
  {
    seq(|text| + 1, p requires 0 <= p <= |text| => CallFrom(text, p))
  }

  /** The lazy group 2, from `p`: the first start of group 3, reached without crossing a line terminator. */
  function LazySearch(text: string, starts: seq<bool>, p: nat): (r: Option<nat>)
    requires |starts| == |text| + 1 && p <= |text|
    decreases |text| - p
  {
    if starts[p] then Some(p)
    else if p < |text| && !IsLineTerminator(text[p]) then LazySearch(text, starts, p + 1)
    else None
  }

  /** The start of group 3 for the whole pattern, if it matches. */
  function InlineCallStart(text: string): Option<nat> {
    LazySearch(text, CallStarts(text), SkipWhitespace(text, 0))
  }

  /** `consoleLogMatch[1] + consoleLogMatch[2]` and `consoleLogMatch[5]`, when the pattern matches. */
  function InlineCallSplit(text: string): (r: Option<(string, string)>)
  {
    match InlineCallStart(text)
    case None => None
    case Some(p) =>
      assert p <= |text| && CallFrom(text, p) by {
        LazySearchFinds(text, CallStarts(text), SkipWhitespace(text, 0));
      }
      var z := CallGroupEnd(text, SkipWhitespace(text, p)).value;
      Some((text[..p], text[z..]))
  }

  /** The lazy search stops at the first start group 3 accepts, with no line terminator on the way. */
  lemma {:induction false} LazySearchFinds(text: string, starts: seq<bool>, from: nat)
    requires |starts| == |text| + 1 && from <= |text| && LazySearch(text, starts, from).Some?
    ensures from <= LazySearch(text, starts, from).value <= |text|
    ensures starts[LazySearch(text, starts, from).value]
    ensures NoLineTerminator(text[from..LazySearch(text, starts, from).value])
    ensures forall p :: from <= p < LazySearch(text, starts, from).value ==> !starts[p]
    decreases |text| - from
  {
    if !starts[from] {
      LazySearchFinds(text, starts, from + 1);
      var v := LazySearch(text, starts, from + 1).value;
      assert text[from..v] == [text[from]] + text[from + 1..v];
    }
  }

  /** A failed search passes no accepted start that group 2 can reach. */
  lemma {:induction false} LazySearchExhausts(text: string, starts: seq<bool>, from: nat)
    requires |starts| == |text| + 1 && from <= |text| && LazySearch(text, starts, from).None?
    ensures forall p :: from <= p <= |text| && NoLineTerminator(text[from..p]) ==> !starts[p]
    decreases |text| - from
  {
    if from < |text| && !IsLineTerminator(text[from]) {
      LazySearchExhausts(text, starts, from + 1);
      forall p | from < p <= |text| && NoLineTerminator(text[from..p]) ensures !starts[p] {
        assert text[from + 1..p] == text[from..p][1..];
      }
    } else if from < |text| {
      assert forall p :: from < p <= |text| ==> text[from..p][0] == text[from];
    }
  }

  /**
   * The pattern matches exactly when group 3 can start somewhere group 2 reaches; the
   * match uses the leftmost such start.
   */
  lemma InlineCallStartIsLeftmost(text: string)
    ensures var w := SkipWhitespace(text, 0);
      InlineCallStart(text).None? <==>
        forall p :: w <= p <= |text| && NoLineTerminator(text[w..p]) ==> !CallFrom(text, p)
    ensures var w := SkipWhitespace(text, 0);
      InlineCallStart(text).Some? ==>
        && w <= InlineCallStart(text).value <= |text|
        && CallFrom(text, InlineCallStart(text).value)
        && NoLineTerminator(text[w..InlineCallStart(text).value])
        && forall p :: w <= p < InlineCallStart(text).value ==> !CallFrom(text, p)
  {
    var w := SkipWhitespace(text, 0);
    var starts := CallStarts(text);
    if InlineCallStart(text).Some? {
      LazySearchFinds(text, starts, w);
      var v := InlineCallStart(text).value;
      assert starts[v];
      forall p | w <= p < v ensures !CallFrom(text, p) {
        assert !starts[p];
      }
    } else {
      LazySearchExhausts(text, starts, w);
      forall p | w <= p <= |text| && NoLineTerminator(text[w..p]) ensures !CallFrom(text, p) {
        assert !starts[p];
      }
    }
  }

  /**
   * When the pattern matches, the line is the kept text before the call, the removed
   * call (from its leading whitespace to its trailing `;` and whitespace), and the
   * kept text after it; the call removed is the leftmost the pattern admits.
   */
  lemma InlineCallSplitMeaning(text: string)
    ensures InlineCallSplit(text).Some? ==>
      var w := SkipWhitespace(text, 0);
      var p := |InlineCallSplit(text).value.0|;
      && w <= p <= |text| && text[..p] == InlineCallSplit(text).value.0
      && CallFrom(text, p)
      && text[CallGroupEnd(text, SkipWhitespace(text, p)).value..] == InlineCallSplit(text).value.1
      && forall q :: w <= q < p ==> !CallFrom(text, q)
  {
    InlineCallStartIsLeftmost(text);
  }

  // `createDeleteEdit`.

  /** `new vscode.Range(p, q)`, which puts the earlier position first. */
  function MakeRange(p: Position, q: Position): Range {
    if PositionLe(p, q) then Range(p, q) else Range(q, p)
  }

  /** The whole line with its line break, or the whole last line's content. */
  function DeleteLine(doc: Document, l: nat): TextEdit
    requires l < |doc|
  {
    TextEdit(RangeIncludingLineBreak(doc, l), "")
  }

  /** The trimmed line is the call alone: it starts with `console.` and ends with `;` or `)`. */
  predicate WholeLineCall(trimmed: string) {
    StartsWith(trimmed, "console.") && (EndsWith(trimmed, ";") || EndsWith(trimmed, ")"))
  }

  /**
   * The single-line case: the whole line when its trimmed text starts with `console.`
   * and ends with `;` or `)`; otherwise the call the inline pattern finds is cut out,
   * and the line goes too when nothing but whitespace would remain.
   */
  function SingleLineDelete(doc: Document, l: nat): Option<TextEdit>
    requires l < |doc|
  {
    if WholeLineCall(Trim(doc[l])) then Some(DeleteLine(doc, l))
    else match InlineCallSplit(doc[l])
      case None => None
      case Some((before, after)) =>
        var newLine := before + after;
        if |Trim(newLine)| > 0 then Some(TextEdit(LineRange(doc, l), newLine))
        else Some(DeleteLine(doc, l))
  }

  /** `text.substring(0, text.indexOf('console.'))`; when `indexOf` gives -1, `substring(0, -1)` is empty. */
  function BeforeConsole(text: string): string {
    match IndexOf(text, "console.")
    case None => ""
    case Some(i) => text[..i]
  }

  /** The multi-line case when text precedes `console.`: from column 0 of the first line to the end of the last line's content. */
  function PartialDelete(doc: Document, s: nat, e: nat): TextEdit
    requires s < |doc| && e < |doc|
  {
    TextEdit(MakeRange(Position(s, 0), Position(e, LineRange(doc, e).end.character)), "")
  }

  /**
   * The multi-line case as written: the "whole lines" range ends on the call's last
   * line, at the column where that line's `rangeIncludingLineBreak` ends, which is
   * column 0 whenever the line has a line break.
   */
  function MultiLineDeleteAsWritten(doc: Document, s: nat, e: nat): TextEdit
    requires s < |doc| && e < |doc|
  {
    if |Trim(BeforeConsole(doc[s]))| == 0 then
      TextEdit(MakeRange(Position(s, 0), Position(e, RangeIncludingLineBreak(doc, e).end.character)), "")
    else PartialDelete(doc, s, e)
  }

  /** The multi-line case as intended: the "whole lines" range ends where the last line's `rangeIncludingLineBreak` ends. */
  function MultiLineDelete(doc: Document, s: nat, e: nat): TextEdit
    requires s < |doc| && e < |doc|
  {
    if |Trim(BeforeConsole(doc[s]))| == 0 then
      TextEdit(MakeRange(Position(s, 0), RangeIncludingLineBreak(doc, e).end), "")
    else PartialDelete(doc, s, e)
  }

  /** `createDeleteEdit` as the source writes it. */
  function CreateDeleteEditAsWritten(doc: Document, logRange: ConsoleLogRange): Option<TextEdit>
    requires logRange.startLine < |doc| && logRange.endLine < |doc|
  {
    if logRange.startLine == logRange.endLine then SingleLineDelete(doc, logRange.startLine)
    else Some(MultiLineDeleteAsWritten(doc, logRange.startLine, logRange.endLine))
  }

  /** `createDeleteEdit` with the multi-line range ending after the call's last line. */
  function CreateDeleteEdit(doc: Document, logRange: ConsoleLogRange): Option<TextEdit>
    requires logRange.startLine < |doc| && logRange.endLine < |doc|
  {
    if logRange.startLine == logRange.endLine then SingleLineDelete(doc, logRange.startLine)
    else Some(MultiLineDelete(doc, logRange.startLine, logRange.endLine))
  }

  /** `createDeleteEdit` as written, or with the multi-line range corrected. */
  function DeleteEditOf(doc: Document, logRange: ConsoleLogRange, corrected: bool): Option<TextEdit>
    requires logRange.startLine < |doc| && logRange.endLine < |doc|
  {
    if corrected then CreateDeleteEdit(doc, logRange) else CreateDeleteEditAsWritten(doc, logRange)
  }

  /** Deleting a line: the following lines move up; on the last line an empty line remains. */
  lemma DeleteLineEffect(doc: Document, l: nat)
    requires WellFormedDocument(doc) && l < |doc|
    ensures ApplyEdit(doc, DeleteLine(doc, l)) == if l + 1 < |doc| then doc[..l] + doc[l + 1..] else doc[..l] + [""]
  {
    if l + 1 < |doc| {
      DeleteLineWithBreak(doc, l);
    } else {
      DeleteLastLine(doc, l);
    }
  }

  /** Cutting the call out of a line replaces that line by the text around the call, and changes nothing else. */
  lemma InlineDeleteEffect(doc: Document, l: nat, before: string, after: string)
    requires WellFormedDocument(doc) && l < |doc|
    requires !WholeLineCall(Trim(doc[l])) && InlineCallSplit(doc[l]) == Some((before, after))
    requires |Trim(before + after)| > 0
    ensures SingleLineDelete(doc, l) == Some(TextEdit(LineRange(doc, l), before + after))
    ensures ApplyEdit(doc, SingleLineDelete(doc, l).value) == doc[..l] + [before + after] + doc[l + 1..]
  {
    var text := doc[l];
    InlineCallSplitMeaning(text);
    var z := CallGroupEnd(text, SkipWhitespace(text, |before|)).value;
    assert NoLineBreak(text);
    NoLineBreakSplice(text, |before|, z);
    assert text[..|before|] + text[z..] == before + after;
    ReplaceLineContent(doc, l, before + after);
  }

  /** Text cut out of a line leaves a line. */
  lemma NoLineBreakSplice(text: string, i: nat, z: nat)
    requires NoLineBreak(text) && i <= z <= |text|
    ensures NoLineBreak(text[..i] + text[z..])
  {
    var r := text[..i] + text[z..];
    forall k | 0 <= k < |r| ensures !IsLineBreak(r[k]) {
      if k < i {
        assert r[k] == text[k];
      } else {
        assert r[k] == text[z + k - i];
      }
    }
  }

  /** For a line that opens a console call, nothing but whitespace precedes its first `console.`. */
  lemma ConsoleStartHasNoPrefix(text: string)
    requires IsConsoleLogStart(text)
    ensures |Trim(BeforeConsole(text))| == 0
  {
    ConsoleLogStartIsPrefixTest(text);
    var w := SkipWhitespace(text, 0);
    ConsoleFollowsIndent(text, w);
    var i := IndexOf(text, "console.").value;
    assert i <= w;
    assert forall k :: 0 <= k < i ==> text[..i][k] == text[..w][k];
    assert AllWhitespace(text[..i]);
  }

  /** A trimmed line opening with `console.` has it right after the indentation. */
  lemma ConsoleFollowsIndent(text: string, w: nat)
    requires w == SkipWhitespace(text, 0) && StartsWith(Trim(text), "console.")
    ensures OccursAt(text, "console.", w) && AllWhitespace(text[..w])
  {
    TrimIsSlice(text);
    var t := Trim(text);
    assert text[w..w + 8] == t[..8];
  }

  /**
   * The corrected multi-line delete removes every line of the call, or leaves one empty
   * line when the call ends on the last line; text before `console.` (which a detected
   * call never has) makes it clear the lines' content only.
   */
  lemma MultiLineDeleteEffect(doc: Document, s: nat, e: nat)
    requires WellFormedDocument(doc) && s < e < |doc|
    ensures |Trim(BeforeConsole(doc[s]))| == 0 ==>
      ApplyEdit(doc, MultiLineDelete(doc, s, e)) == if e + 1 < |doc| then doc[..s] + doc[e + 1..] else doc[..s] + [""]
    ensures |Trim(BeforeConsole(doc[s]))| > 0 ==>
      ApplyEdit(doc, MultiLineDelete(doc, s, e)) == doc[..s] + [""] + doc[e + 1..]
  {
    if |Trim(BeforeConsole(doc[s]))| == 0 {
      if e + 1 < |doc| {
        DeleteLinesBefore(doc, s, e + 1);
      } else {
        DeleteLinesToEnd(doc, s, e);
      }
    } else {
      DeleteLinesToEnd(doc, s, e);
    }
  }

  /** As written, the multi-line delete of a call that does not end on the last line keeps the call's last line. */
  lemma MultiLineDeleteKeepsClosingLine(doc: Document, s: nat, e: nat)
    requires WellFormedDocument(doc) && s < e && e + 1 < |doc|
    requires |Trim(BeforeConsole(doc[s]))| == 0
    ensures ApplyEdit(doc, MultiLineDeleteAsWritten(doc, s, e)) == doc[..s] + doc[e..]
  {
    DeleteLinesBefore(doc, s, e);
  }

  /**
   * A two-line call followed by one more line: `removeDebugLogs` as written plans one
   * delete, which leaves the call's closing line behind; the corrected plan removes
   * both lines of the call.
   */
  lemma ClosingLineKeptExample(doc: Document)
    requires doc == ["console.log(a,", "  b);", "x"]
    ensures WellFormedDocument(doc) && BeforeConsole(doc[0]) == []
    ensures ConsoleLogs(doc, 0, 2) == [ConsoleLogRange(0, 1, Log)]
    ensures |PlannedDeletes(doc, 0, 2, false)| == 1 && ApplyEdit(doc, PlannedDeletes(doc, 0, 2, false)[0]) == ["  b);", "x"]
    ensures |PlannedDeletes(doc, 0, 2, true)| == 1 && ApplyEdit(doc, PlannedDeletes(doc, 0, 2, true)[0]) == ["x"]
  {
    TwoLineCallShape(doc);
    MultiLineDeleteKeepsClosingLine(doc, 0, 1);
    MultiLineDeleteEffect(doc, 0, 1);
    assert doc[..0] + doc[1..] == ["  b);", "x"];
    assert doc[..0] + doc[2..] == ["x"];
    TwoLineCallFound(doc);
    OneCallPlan(doc, ConsoleLogRange(0, 1, Log), false);
    OneCallPlan(doc, ConsoleLogRange(0, 1, Log), true);
  }

  /** A single call's plan is its own delete, if it has one. */
  lemma OneCallPlan(doc: Document, r: ConsoleLogRange, corrected: bool)
    requires r.startLine < |doc| && r.endLine < |doc|
    ensures Deletes(doc, [r], corrected) == EditList(DeleteEditOf(doc, r, corrected))
  {
    assert [r][1..] == [];
  }

  /** The example's lines hold no line break, and its call opens at column 0. */
  lemma TwoLineCallShape(doc: Document)
    requires doc == ["console.log(a,", "  b);", "x"]
    ensures WellFormedDocument(doc) && BeforeConsole(doc[0]) == []
  {
    assert WellFormedDocument(doc) by {
      forall l | 0 <= l < |doc| ensures NoLineBreak(doc[l]) {
      }
    }
    assert OccursAt(doc[0], "console.", 0);
  }

  /** The first line of the example opens a `console.log` call. */
  lemma TwoLineCallOpens(first: string)
    requires first == "console.log(a,"
    ensures IsConsoleLogStart(first) && ExtractConsoleMethod(first) == Some(Log)
  {
    assert first[0..11] == "console.log" && first[11] == '(';
    SkipWhitespaceOver(first, 11, 11);
    assert Trim(first) == first by {
      TrimUntrimmed(first);
    }
    StartYieldsMethod(first, Log);
  }

  /** The scanner carries the open call over the first line of the example. */
  lemma TwoLineCallCarries(first: string)
    requires first == "console.log(a,"
    ensures ScanLine(first, 0, Lexer(0, Code)) == Carry(Lexer(1, Code))
  {
    CodeRunSkipped(first, 0, 11, 0);
    CodeRunSkipped(first, 12, 14, 1);
  }

  /** The scanner closes the carried call on the second line of the example. */
  lemma TwoLineCallCloses(second: string)
    requires second == "  b);"
    ensures ScanLine(second, 0, Lexer(1, Code)) == Closed(3)
  {
    CodeRunSkipped(second, 0, 3, 1);
    SkipWhitespaceOver(second, 4, 4);
    assert ClosesAt(second, 3, Lexer(1, Code));
  }

  /** The example's call opens on line 0 and closes on line 1. */
  lemma TwoLineCallEnd(doc: Document)
    requires doc == ["console.log(a,", "  b);", "x"]
    ensures IsConsoleLogStart(doc[0]) && ExtractConsoleMethod(doc[0]) == Some(Log)
    ensures ConsoleLogEnd(doc, 0) == Some(1)
  {
    TwoLineCallOpens(doc[0]);
    TwoLineCallCarries(doc[0]);
    TwoLineCallCloses(doc[1]);
    assert ScanFrom(doc, 1, Lexer(1, Code)) == Some(1);
  }

  /** The selection of all three lines holds exactly the two-line call. */
  lemma TwoLineCallFound(doc: Document)
    requires doc == ["console.log(a,", "  b);", "x"]
    ensures ConsoleLogs(doc, 0, 2) == [ConsoleLogRange(0, 1, Log)]
  {
    TwoLineCallEnd(doc);
    var r := ConsoleLogRange(0, 1, Log);
    assert SpanAt(doc, 0, 2) == Some(r);
    NoCallOnShortLine(doc[2]);
    assert SpanAt(doc, 2, 2) == None;
    var table := SpanTable(doc, 2, 3);
    SpanTableAt(doc, 2, 3, 0);
    SpanTableAt(doc, 2, 3, 2);
    CollectTake(table, 0, 0, r);
    CollectSkip(table, 1, 2);
    CollectSkip(table, 2, 2);
    assert Collect(table, 3, 2) == [];
  }

  /** A line shorter than `console.` opens no call. */
  lemma NoCallOnShortLine(text: string)
    requires |text| < 8
    ensures !IsConsoleLogStart(text)
  {
    ConsoleLogStartIsPrefixTest(text);
  }

  // `addDebugLogs`.

  /** The edit the insertion loop builds for the `index`-th complete line `l`: the statement goes at the end of the line. */
  function InsertionEdit(doc: Document, eol: EndOfLine, config: DebugLogConfig, l: nat, index: nat): TextEdit
    requires l < |doc|
  {
    var p := LineRange(doc, l).end;
    TextEdit(Range(p, p), GenerateDebugStatement(
      OrDefault(config.emoji, DebugEmoji), LabelText(config.debugLabel), index,
      OrDefault(config.color, DebugLogColor), OrDefault(config.fontWeight, DebugLogFontWeight),
      Indent(doc[l]), EolText(eol)))
  }

  /** `Array.prototype.reverse`, on a value. */
  function Reversed<T>(s: seq<T>): seq<T> {
    if s == [] then [] else Reversed(s[1..]) + [s[0]]
  }

  lemma {:induction false} ReversedAt<T>(s: seq<T>)
    ensures |Reversed(s)| == |s|
    ensures forall k :: 0 <= k < |s| ==> Reversed(s)[k] == s[|s| - 1 - k]
  {
    if s != [] {
      ReversedAt(s[1..]);
    }
  }

  /** The inserts for the complete lines of `[startLine, endLine]`, numbered from 1 in document order. */
  function NumberedInsertions(doc: Document, eol: EndOfLine, startLine: nat, endLine: nat, config: DebugLogConfig): seq<TextEdit>
    requires endLine < |doc|
  {
    CompleteLinesWithin(doc, startLine, endLine);
    Numbered(doc, eol, config, CompleteLines(doc, startLine, endLine))
  }

  /** The inserts after `lines`, the `k`-th numbered `k + 1`. */
  function Numbered(doc: Document, eol: EndOfLine, config: DebugLogConfig, lines: seq<nat>): seq<TextEdit>
    requires forall k :: 0 <= k < |lines| ==> lines[k] < |doc|
  {
    seq(|lines|, k requires 0 <= k < |lines| => InsertionEdit(doc, eol, config, lines[k], k + 1))
  }

  /** Reversing the numbered inserts puts the `k`-th from the bottom first, still numbered from the top. */
  lemma ReversedNumberedAt(doc: Document, eol: EndOfLine, config: DebugLogConfig, lines: seq<nat>)
    requires forall k :: 0 <= k < |lines| ==> lines[k] < |doc|
    ensures |Reversed(Numbered(doc, eol, config, lines))| == |lines|
    ensures forall k :: 0 <= k < |lines| ==>
      Reversed(Numbered(doc, eol, config, lines))[k] == InsertionEdit(doc, eol, config, lines[|lines| - 1 - k], |lines| - k)
  {
    ReversedAt(Numbered(doc, eol, config, lines));
  }

  /** The inserts `addDebugLogs` hands to the editor: the numbered ones, last line first. */
  function PlannedInsertions(doc: Document, eol: EndOfLine, startLine: nat, endLine: nat, config: DebugLogConfig): seq<TextEdit>
    requires endLine < |doc|
  {
    Reversed(NumberedInsertions(doc, eol, startLine, endLine, config))
  }

  /**
   * `addDebugLogs`: one numbered statement after each complete line of the selection,
   * handed to the editor last line first; the result is whether there was anything to
   * insert and the editor applied it.
   */
  method AddDebugLogs(doc: Document, eol: EndOfLine, startLine: nat, endLine: nat, config: DebugLogConfig, applyOk: bool)
    returns (edits: seq<TextEdit>, success: bool)
    requires endLine < |doc|
    ensures edits == PlannedInsertions(doc, eol, startLine, endLine, config)
    ensures success <==> |edits| > 0 && applyOk
  {
    ghost var lines := CompleteLines(doc, startLine, endLine);
    ghost var numbered := NumberedInsertions(doc, eol, startLine, endLine, config);
    CompleteLinesWithin(doc, startLine, endLine);
    var labelText := LabelText(config.debugLabel);
    var emoji := OrDefault(config.emoji, DebugEmoji);
    var color := OrDefault(config.color, DebugLogColor);
    var fontWeight := OrDefault(config.fontWeight, DebugLogFontWeight);
    var statements := GetCompleteStatements(doc, startLine, endLine);
    if |statements| == 0 {
      assert numbered == [];
      return [], false;
    }
    var planned: seq<TextEdit> := [];
    var debugIndex := 1;
    var k := 0;
    while k < |statements|
      invariant 0 <= k <= |statements| && debugIndex == k + 1 && |planned| == k
      invariant forall j :: 0 <= j < k ==> planned[j] == InsertionEdit(doc, eol, config, statements[j].startLine, j + 1)
    {
      var statement := statements[k];
      var line := doc[statement.startLine];
      var indent := Indent(line);
      var debugStatement := GenerateDebugStatement(emoji, labelText, debugIndex, color, fontWeight, indent, EolText(eol));
      var lineEndPosition := LineRange(doc, statement.startLine).end;
      planned := planned + [TextEdit(Range(lineEndPosition, lineEndPosition), debugStatement)];
      debugIndex := debugIndex + 1;
      k := k + 1;
    }
    assert planned == numbered;
    edits := Reversed(planned);
    success := applyOk;
  }

  /** The numbered inserts, one per complete line in document order, each numbered after its position. */
  lemma NumberedInsertionsAt(doc: Document, eol: EndOfLine, startLine: nat, endLine: nat, config: DebugLogConfig, j: nat)
    requires endLine < |doc| && j < |CompleteLines(doc, startLine, endLine)|
    ensures var l := CompleteLines(doc, startLine, endLine)[j];
      && l < |doc|
      && |NumberedInsertions(doc, eol, startLine, endLine, config)| == |CompleteLines(doc, startLine, endLine)|
      && NumberedInsertions(doc, eol, startLine, endLine, config)[j] == InsertionEdit(doc, eol, config, l, j + 1)
  {
    CompleteLinesWithin(doc, startLine, endLine);
  }

  /** The inserts handed to the editor: the `k`-th goes after the `k`-th complete line from the bottom and carries its number from the top. */
  lemma PlannedInsertionsNumbered(doc: Document, eol: EndOfLine, startLine: nat, endLine: nat, config: DebugLogConfig)
    requires endLine < |doc|
    ensures |PlannedInsertions(doc, eol, startLine, endLine, config)| == |CompleteLines(doc, startLine, endLine)|
    ensures forall k :: 0 <= k < |PlannedInsertions(doc, eol, startLine, endLine, config)| ==>
      var lines := CompleteLines(doc, startLine, endLine);
      lines[|lines| - 1 - k] < |doc| &&
      PlannedInsertions(doc, eol, startLine, endLine, config)[k]
        == InsertionEdit(doc, eol, config, lines[|lines| - 1 - k], |lines| - k)
  {
    CompleteLinesWithin(doc, startLine, endLine);
    ReversedNumberedAt(doc, eol, config, CompleteLines(doc, startLine, endLine));
  }

  /**
   * Each insert is an empty range at the end of a complete line, and the inserts run
   * strictly from the bottom of the document up, so none moves the place of a later one.
   */
  lemma PlannedInsertionsBackToFront(doc: Document, eol: EndOfLine, startLine: nat, endLine: nat, config: DebugLogConfig)
    requires endLine < |doc|
    ensures forall k :: 0 <= k < |PlannedInsertions(doc, eol, startLine, endLine, config)| ==>
      var r := PlannedInsertions(doc, eol, startLine, endLine, config)[k].range;
      && r.start == r.end && r.start.line < |doc|
      && r.start.character == |doc[r.start.line]|
      && IsCompleteStatement(doc[r.start.line], doc, r.start.line)
    ensures forall j, k :: 0 <= j < k < |PlannedInsertions(doc, eol, startLine, endLine, config)| ==>
      PlannedInsertions(doc, eol, startLine, endLine, config)[k].range.start.line
        < PlannedInsertions(doc, eol, startLine, endLine, config)[j].range.start.line
  {
    PlannedInsertionsNumbered(doc, eol, startLine, endLine, config);
    CompleteLinesExact(doc, startLine, endLine);
  }

  /** Text that can stand inside a single-quoted argument as it is: no quote, no backslash, no line break. */
  predicate Quotable(s: string) {
    forall i :: 0 <= i < |s| ==> s[i] != '\'' && s[i] != '\\' && !IsLineBreak(s[i])
  }

  /** Every setting that is present is quotable. */
  predicate QuotableSettings(config: DebugLogConfig) {
    && (config.debugLabel.Some? ==> Quotable(config.debugLabel.value))
    && (config.emoji.Some? ==> Quotable(config.emoji.value))
    && (config.color.Some? ==> Quotable(config.color.value))
    && (config.fontWeight.Some? ==> Quotable(config.fontWeight.value))
  }

  /** The message of the `index`-th statement under `config`. */
  function ConfigMessage(config: DebugLogConfig, index: nat): string {
    MessageText(OrDefault(config.emoji, DebugEmoji), LabelText(config.debugLabel), index)
  }

  /** The style argument under `config`. */
  function ConfigStyle(config: DebugLogConfig): string {
    StyleText(OrDefault(config.color, DebugLogColor), OrDefault(config.fontWeight, DebugLogFontWeight))
  }

  /** The line that inserting the `index`-th statement after line `l` adds. */
  function InsertedLine(doc: Document, config: DebugLogConfig, l: nat, index: nat): string
    requires l < |doc|
  {
    Indent(doc[l]) + LogCall(ConfigMessage(config, index), ConfigStyle(config))
  }

  /** An empty setting read as an absent one. */
  function AbsentIfEmpty(v: Option<string>): Option<string> {
    if v == Some("") then None else v
  }

  /** An empty label, emoji, color or weight gives the same insert as leaving the setting out. */
  lemma EmptySettingIsAbsent(doc: Document, eol: EndOfLine, config: DebugLogConfig, l: nat, index: nat)
    requires l < |doc|
    ensures var absent := DebugLogConfig(AbsentIfEmpty(config.debugLabel), AbsentIfEmpty(config.emoji),
        AbsentIfEmpty(config.color), AbsentIfEmpty(config.fontWeight));
      InsertionEdit(doc, eol, config, l, index) == InsertionEdit(doc, eol, absent, l, index)
  {
  }

  /** With no settings the call carries the default emoji, no label, and the default color and weight. */
  lemma DefaultStatement(index: nat)
    ensures ConfigMessage(DebugLogConfig(None, None, None, None), index) == "%c" + DebugEmoji + " " + NatToString(index)
    ensures ConfigStyle(DebugLogConfig(None, None, None, None)) == "color: orange; font-weight: bold"
  {
    assert "%c" + DebugEmoji + "" == "%c" + DebugEmoji;
    assert "color: " + "orange" == "color: orange";
    assert "color: orange" + "; font-weight: " == "color: orange; font-weight: ";
    assert "color: orange; font-weight: " + "bold" == "color: orange; font-weight: bold";
  }

  /** With quotable settings, both arguments of the inserted call are quotable. */
  lemma ArgumentsQuotable(config: DebugLogConfig, index: nat)
    requires QuotableSettings(config)
    ensures Quotable(ConfigMessage(config, index)) && Quotable(ConfigStyle(config))
  {
    var digits := NatToString(index);
    assert Quotable(digits) by {
      forall i | 0 <= i < |digits| ensures IsDigit(digits[i]) {
      }
    }
  }

  /**
   * Applying one planned insert adds exactly one line after line `l`: the line's own
   * indentation followed by the numbered call; every other line stays where it was.
   */
  lemma InsertionAddsLine(doc: Document, eol: EndOfLine, config: DebugLogConfig, l: nat, index: nat)
    requires WellFormedDocument(doc) && l < |doc| && QuotableSettings(config)
    ensures ApplyEdit(doc, InsertionEdit(doc, eol, config, l, index)) == doc[..l + 1] + [InsertedLine(doc, config, l, index)] + doc[l + 1..]
    ensures WellFormedDocument(ApplyEdit(doc, InsertionEdit(doc, eol, config, l, index)))
  {
    var line := InsertedLine(doc, config, l, index);
    InsertedLineIsLine(doc, config, l, index);
    assert InsertionEdit(doc, eol, config, l, index).newText == EolText(eol) + line;
    InsertLineAfter(doc, l, eol, line);
    InsertKeepsWellFormed(doc, l, line);
  }

  /** With quotable settings, the inserted line holds no line break. */
  lemma InsertedLineIsLine(doc: Document, config: DebugLogConfig, l: nat, index: nat)
    requires WellFormedDocument(doc) && l < |doc| && QuotableSettings(config)
    ensures NoLineBreak(InsertedLine(doc, config, l, index))
  {
    ArgumentsQuotable(config, index);
    var w := Indent(doc[l]);
    assert NoLineBreak(w) by {
      assert forall i :: 0 <= i < |w| ==> w[i] == doc[l][i];
    }
    InsertedLineHasNoBreak(w, ConfigMessage(config, index), ConfigStyle(config));
  }

  lemma InsertedLineHasNoBreak(w: string, message: string, style: string)
    requires NoLineBreak(w) && Quotable(message) && Quotable(style)
    ensures NoLineBreak(w + LogCall(message, style))
  {
    var parts := [w, "console.log('", message, "', '", style, "');"];
    assert forall k :: 0 <= k < |parts| ==> NoLineBreak(parts[k]);
    assert w + LogCall(message, style) == parts[0] + parts[1] + parts[2] + parts[3] + parts[4] + parts[5];
  }

  /** Putting a line without line breaks into a well-formed document keeps it well formed. */
  lemma InsertKeepsWellFormed(doc: Document, l: nat, t: string)
    requires WellFormedDocument(doc) && l < |doc| && NoLineBreak(t)
    ensures WellFormedDocument(doc[..l + 1] + [t] + doc[l + 1..])
  {
    var inserted := doc[..l + 1] + [t] + doc[l + 1..];
    forall k | 0 <= k < |inserted| ensures NoLineBreak(inserted[k]) {
      if k <= l {
        assert inserted[k] == doc[k];
      } else if k > l + 1 {
        assert inserted[k] == doc[k - 1];
      }
    }
  }

  /**
   * The scanner over a line laid out as code without quotes or parentheses up to
   * index `a + 11`, then `('`, a quoted run up to `b`, `', '`, a quoted run up to `c`,
   * and `');`: it closes at the `)`.
   */
  lemma ScanOfLaidOutCall(t: string, a: nat, b: nat, c: nat)
    requires a + 13 <= b && b + 4 <= c && c + 3 == |t|
    requires forall k :: 0 <= k < a + 11 ==> !IsQuoteChar(t[k]) && t[k] != '(' && t[k] != ')'
    requires t[a + 11] == '(' && t[a + 12] == '\''
    requires forall k :: a + 13 <= k < b ==> t[k] != '\'' && t[k] != '\\'
    requires t[b] == '\'' && t[b + 1] == ',' && t[b + 2] == ' ' && t[b + 3] == '\''
    requires forall k :: b + 4 <= k < c ==> t[k] != '\'' && t[k] != '\\'
    requires t[c] == '\'' && t[c + 1] == ')' && t[c + 2] == ';'
    ensures ScanLine(t, 0, Lexer(0, Code)) == Closed(c + 1)
  {
    CodeRunSkipped(t, 0, a + 11, 0);
    OpenParenStep(t, a + 11, 0);
    assert t[b - 1] != '\\';
    QuotedStringSkipped(t, a + 12, b, 1, '\'');
    SecondArgumentCloses(t, b, c);
  }

  /** From the `,` after the first argument: the second quoted argument, then `);`, closes the call. */
  lemma SecondArgumentCloses(t: string, b: nat, c: nat)
    requires b + 4 <= c && c + 3 == |t|
    requires t[b + 1] == ',' && t[b + 2] == ' ' && t[b + 3] == '\''
    requires forall k :: b + 4 <= k < c ==> t[k] != '\'' && t[k] != '\\'
    requires t[c] == '\'' && t[c + 1] == ')' && t[c + 2] == ';'
    ensures ScanLine(t, b + 1, Lexer(1, Code)) == Closed(c + 1)
  {
    CodeRunSkipped(t, b + 1, b + 3, 1);
    assert t[c - 1] != '\\';
    QuotedStringSkipped(t, b + 3, c, 1, '\'');
    SkipWhitespaceOver(t, c + 2, c + 2);
    assert ClosesAt(t, c + 1, Lexer(1, Code));
  }

  /** An indented call with quotable arguments has the layout the scanner closes on. */
  lemma InsertedLineScan(w: string, message: string, style: string)
    requires AllWhitespace(w) && Quotable(message) && Quotable(style)
    ensures var t := w + LogCall(message, style); ScanLine(t, 0, Lexer(0, Code)) == Closed(|t| - 2)
  {
    var t := w + LogCall(message, style);
    var a := |w|;
    var b := a + 13 + |message|;
    var c := b + 4 + |style|;
    LogCallHead(w, message, style);
    LogCallArguments(w, message, style);
    ScanOfLaidOutCall(t, a, b, c);
  }

  /** The indentation, then `console.log('`; nothing before the `(` is a quote or a parenthesis. */
  lemma LogCallHead(w: string, message: string, style: string)
    requires AllWhitespace(w)
    ensures var t := w + LogCall(message, style);
      && |t| == |w| + 13 + |message| + 4 + |style| + 3
      && (forall k :: 0 <= k < |w| + 11 ==> !IsQuoteChar(t[k]) && t[k] != '(' && t[k] != ')')
      && t[|w| + 11] == '(' && t[|w| + 12] == '\''
  {
    var t := w + LogCall(message, style);
    var a := |w|;
    assert t == w + "console.log('" + message + "', '" + style + "');";
    assert forall k :: 0 <= k < a ==> t[k] == w[k];
    assert forall k :: a <= k < a + 11 ==> t[k] == "console.log"[k - a];
  }

  /** The two quoted arguments of the call and the delimiters around them. */
  lemma LogCallArguments(w: string, message: string, style: string)
    requires Quotable(message) && Quotable(style)
    ensures var t := w + LogCall(message, style);
      var b := |w| + 13 + |message|; var c := b + 4 + |style|;
      && c + 3 == |t|
      && (forall k :: |w| + 13 <= k < b ==> t[k] != '\'' && t[k] != '\\')
      && t[b] == '\'' && t[b + 1] == ',' && t[b + 2] == ' ' && t[b + 3] == '\''
      && (forall k :: b + 4 <= k < c ==> t[k] != '\'' && t[k] != '\\')
      && t[c] == '\'' && t[c + 1] == ')' && t[c + 2] == ';'
  {
    var t := w + LogCall(message, style);
    var a := |w|;
    var b := a + 13 + |message|;
    var c := b + 4 + |style|;
    var first := w + "console.log('" + message;
    var second := first + "', '" + style;
    assert t == second + "');";
    assert forall k :: a + 13 <= k < b ==> t[k] == message[k - a - 13];
    assert forall k :: b + 4 <= k < c ==> t[k] == style[k - b - 4];
  }

  /** The call without its indentation opens a `console.log` call and is a whole-line call. */
  lemma LogCallOpens(message: string, style: string)
    ensures OpensCallAt(LogCall(message, style), 0, Log)
    ensures WholeLineCall(LogCall(message, style))
  {
    var x := LogCall(message, style);
    assert x[0..11] == "console.log" && x[11] == '(';
    SkipWhitespaceOver(x, 11, 11);
    assert x[..8] == "console.";
    assert x[|x| - 1..] == ";";
  }

  /**
   * An indented call with quotable arguments is what the detector looks for: it opens
   * a `console.log` call, names `log`, closes on its own line just before the final
   * `;`, and is a whole-line call.
   */
  lemma InsertedLineIsDetected(w: string, message: string, style: string)
    requires AllWhitespace(w) && Quotable(message) && Quotable(style)
    ensures var t := w + LogCall(message, style);
      && IsConsoleLogStart(t)
      && ExtractConsoleMethod(t) == Some(Log)
      && ScanLine(t, 0, Lexer(0, Code)) == Closed(|t| - 2)
      && WholeLineCall(Trim(t))
  {
    var x := LogCall(message, style);
    var t := w + x;
    assert x[0] == 'c' && x[|x| - 1] == ';';
    TrimIndented(w, x);
    LogCallOpens(message, style);
    StartYieldsMethod(t, Log);
    InsertedLineScan(w, message, style);
  }

  // `removeDebugLogs`.

  /** The edit list of a call is the edit, or nothing when there is none. */
  function EditList(e: Option<TextEdit>): seq<TextEdit> {
    match e
    case None => []
    case Some(x) => [x]
  }

  /** The deletes for `logs`, last call first, calls without an edit skipped. */
  function Deletes(doc: Document, logs: seq<ConsoleLogRange>, corrected: bool): seq<TextEdit>
    requires forall k :: 0 <= k < |logs| ==> logs[k].startLine < |doc| && logs[k].endLine < |doc|
  {
    if logs == [] then [] else Deletes(doc, logs[1..], corrected) + EditList(DeleteEditOf(doc, logs[0], corrected))
  }

  /**
   * The deletes planned for the selection `[startLine, endLine]`: with `corrected`
   * false those of `removeDebugLogs` as written, with it true those of the corrected
   * multi-line delete.
   */
  function PlannedDeletes(doc: Document, startLine: nat, endLine: nat, corrected: bool): seq<TextEdit>
    requires endLine < |doc|
  {
    ConsoleLogsWithin(doc, startLine, endLine);
    Deletes(doc, ConsoleLogs(doc, startLine, endLine), corrected)
  }

  /** The spans found lie in the document. */
  lemma ConsoleLogsWithin(doc: Document, startLine: nat, endLine: nat)
    requires endLine < |doc|
    ensures forall k :: 0 <= k < |ConsoleLogs(doc, startLine, endLine)| ==>
      ConsoleLogs(doc, startLine, endLine)[k].startLine < |doc| && ConsoleLogs(doc, startLine, endLine)[k].endLine < |doc|
  {
    ConsoleLogsSound(doc, startLine, endLine);
  }

  /**
   * `removeDebugLogs`: a delete per console call found in the selection, from the last
   * call to the first; the result is how many were applied (none when the editor refused).
   */
  method RemoveDebugLogs(doc: Document, startLine: nat, endLine: nat, applyOk: bool)
    returns (edits: seq<TextEdit>, removed: nat)
    requires endLine < |doc|
    ensures edits == PlannedDeletes(doc, startLine, endLine, false)
    ensures removed == if |edits| > 0 && applyOk then |edits| else 0
  {
    var consoleLogs := FindConsoleLogs(doc, startLine, endLine);
    ConsoleLogsWithin(doc, startLine, endLine);
    if |consoleLogs| == 0 {
      return [], 0;
    }
    edits := [];
    var i := |consoleLogs|;
    while i > 0
      invariant 0 <= i <= |consoleLogs|
      invariant edits == Deletes(doc, consoleLogs[i..], false)
    {
      i := i - 1;
      var logRange := consoleLogs[i];
      var edit := CreateDeleteEditAsWritten(doc, logRange);
      assert consoleLogs[i..][1..] == consoleLogs[i + 1..];
      if edit.Some? {
        edits := edits + [edit.value];
      }
    }
    assert consoleLogs[0..] == consoleLogs;
    removed := if |edits| > 0 && applyOk then |edits| else 0;
  }

  /** Where a call's delete starts, and that it ends no later than the start of the line after the call. */
  lemma DeleteEditSpan(doc: Document, logRange: ConsoleLogRange, corrected: bool)
    requires logRange.startLine <= logRange.endLine < |doc|
    ensures DeleteEditOf(doc, logRange, corrected).Some? ==>
      var r := DeleteEditOf(doc, logRange, corrected).value.range;
      && r.start == Position(logRange.startLine, 0)
      && ValidRange(doc, r)
      && PositionLe(r.end, Position(logRange.endLine + 1, 0))
  {
    var s, e := logRange.startLine, logRange.endLine;
    if s == e {
      SingleLineDeleteSpan(doc, s);
    } else {
      MultiLineDeleteSpan(doc, s, e);
    }
  }

  lemma SingleLineDeleteSpan(doc: Document, l: nat)
    requires l < |doc|
    ensures SingleLineDelete(doc, l).Some? ==>
      var r := SingleLineDelete(doc, l).value.range;
      r.start == Position(l, 0) && ValidRange(doc, r) && PositionLe(r.end, Position(l + 1, 0))
  {
    if !WholeLineCall(Trim(doc[l])) {
      match InlineCallSplit(doc[l])
      case None =>
      case Some((before, after)) =>
    }
  }

  lemma MultiLineDeleteSpan(doc: Document, s: nat, e: nat)
    requires s < e < |doc|
    ensures var r := MultiLineDelete(doc, s, e).range;
      r.start == Position(s, 0) && ValidRange(doc, r) && PositionLe(r.end, Position(e + 1, 0))
    ensures var r := MultiLineDeleteAsWritten(doc, s, e).range;
      r.start == Position(s, 0) && ValidRange(doc, r) && PositionLe(r.end, Position(e + 1, 0))
  {
  }

  /**
   * For ordered, disjoint calls, the deletes come one per call at most, each starting
   * at the beginning of its call's first line, and each one lies wholly after the next:
   * applying them in order never shifts a range still to come.
   */
  lemma DeletesBackToFront(doc: Document, logs: seq<ConsoleLogRange>, corrected: bool)
    requires forall k :: 0 <= k < |logs| ==> logs[k].startLine <= logs[k].endLine < |doc|
    requires forall k :: 0 <= k < |logs| - 1 ==> logs[k].endLine < logs[k + 1].startLine
    ensures |Deletes(doc, logs, corrected)| <= |logs|
    ensures forall i :: 0 <= i < |Deletes(doc, logs, corrected)| ==>
      ValidRange(doc, Deletes(doc, logs, corrected)[i].range) && Deletes(doc, logs, corrected)[i].range.start.character == 0
      && logs[0].startLine <= Deletes(doc, logs, corrected)[i].range.start.line
    ensures forall i, j :: 0 <= i < j < |Deletes(doc, logs, corrected)| ==>
      PositionLe(Deletes(doc, logs, corrected)[j].range.end, Deletes(doc, logs, corrected)[i].range.start)
  {
    DeletesWithin(doc, logs, corrected);
    DeletesOrdered(doc, logs, corrected);
  }

  /** The deletes, one per call at most, lie in the document from the start of the first call's line on. */
  lemma {:induction false} DeletesWithin(doc: Document, logs: seq<ConsoleLogRange>, corrected: bool)
    requires forall k :: 0 <= k < |logs| ==> logs[k].startLine <= logs[k].endLine < |doc|
    requires forall k :: 0 <= k < |logs| - 1 ==> logs[k].endLine < logs[k + 1].startLine
    ensures |Deletes(doc, logs, corrected)| <= |logs|
    ensures forall i :: 0 <= i < |Deletes(doc, logs, corrected)| ==>
      ValidRange(doc, Deletes(doc, logs, corrected)[i].range) && Deletes(doc, logs, corrected)[i].range.start.character == 0
      && logs[0].startLine <= Deletes(doc, logs, corrected)[i].range.start.line
  {
    if logs != [] {
      var rest := Deletes(doc, logs[1..], corrected);
      DeletesWithin(doc, logs[1..], corrected);
      DeleteEditSpan(doc, logs[0], corrected);
      var ds := rest + EditList(DeleteEditOf(doc, logs[0], corrected));
      assert Deletes(doc, logs, corrected) == ds;
      assert |logs| > 1 ==> logs[1..][0] == logs[1];
      forall i | 0 <= i < |ds|
        ensures ValidRange(doc, ds[i].range) && ds[i].range.start.character == 0
        ensures logs[0].startLine <= ds[i].range.start.line
      {
        if i < |rest| {
          assert ds[i] == rest[i];
        } else {
          assert ds[i] == DeleteEditOf(doc, logs[0], corrected).value;
        }
      }
    }
  }

  /** Each delete lies wholly after the next one. */
  lemma {:induction false} DeletesOrdered(doc: Document, logs: seq<ConsoleLogRange>, corrected: bool)
    requires forall k :: 0 <= k < |logs| ==> logs[k].startLine <= logs[k].endLine < |doc|
    requires forall k :: 0 <= k < |logs| - 1 ==> logs[k].endLine < logs[k + 1].startLine
    ensures forall i, j :: 0 <= i < j < |Deletes(doc, logs, corrected)| ==>
      PositionLe(Deletes(doc, logs, corrected)[j].range.end, Deletes(doc, logs, corrected)[i].range.start)
  {
    if logs != [] {
      var rest := Deletes(doc, logs[1..], corrected);
      DeletesOrdered(doc, logs[1..], corrected);
      DeletesWithin(doc, logs[1..], corrected);
      DeleteEditSpan(doc, logs[0], corrected);
      var ds := rest + EditList(DeleteEditOf(doc, logs[0], corrected));
      assert Deletes(doc, logs, corrected) == ds;
      assert |logs| > 1 ==> logs[1..][0] == logs[1];
      forall i, j | 0 <= i < j < |ds| ensures PositionLe(ds[j].range.end, ds[i].range.start) {
        if j < |rest| {
          assert ds[i] == rest[i] && ds[j] == rest[j];
        } else {
          assert ds[i] == rest[i] && ds[j] == DeleteEditOf(doc, logs[0], corrected).value;
        }
      }
    }
  }

  /** The deletes of a selection lie inside the document, disjoint and from the bottom up, one per detected call at most. */
  lemma PlannedDeletesBackToFront(doc: Document, startLine: nat, endLine: nat, corrected: bool)
    requires endLine < |doc|
    ensures |PlannedDeletes(doc, startLine, endLine, corrected)| <= |ConsoleLogs(doc, startLine, endLine)|
    ensures forall i :: 0 <= i < |PlannedDeletes(doc, startLine, endLine, corrected)| ==>
      ValidRange(doc, PlannedDeletes(doc, startLine, endLine, corrected)[i].range)
    ensures forall i, j :: 0 <= i < j < |PlannedDeletes(doc, startLine, endLine, corrected)| ==>
      PositionLe(PlannedDeletes(doc, startLine, endLine, corrected)[j].range.end, PlannedDeletes(doc, startLine, endLine, corrected)[i].range.start)
  {
    ConsoleLogsSound(doc, startLine, endLine);
    DeletesBackToFront(doc, ConsoleLogs(doc, startLine, endLine), corrected);
  }

  // Inserting, then removing.

  /** The call on the inserted line is the only call detected in the selection holding just that line. */
  lemma InsertedLineIsFound(doc: Document, l: nat, w: string, message: string, style: string)
    requires l < |doc| && doc[l] == w + LogCall(message, style)
    requires AllWhitespace(w) && Quotable(message) && Quotable(style)
    ensures ConsoleLogs(doc, l, l) == [ConsoleLogRange(l, l, Log)]
  {
    var r := ConsoleLogRange(l, l, Log);
    InsertedLineIsDetected(w, message, style);
    assert ConsoleLogEnd(doc, l) == Some(l);
    assert SpanAt(doc, l, l) == Some(r);
    var table := SpanTable(doc, l, l + 1);
    SpanTableAt(doc, l, l + 1, l);
    CollectTake(table, l, 0, r);
    assert Collect(table, l + 1, l + 1) == [];
  }

  /** Deleting a line put after line `l` gives back the document, with an empty last line when it went last. */
  lemma DeleteInsertedLine(doc: Document, l: nat, t: string)
    requires WellFormedDocument(doc) && l < |doc| && NoLineBreak(t)
    ensures var inserted := doc[..l + 1] + [t] + doc[l + 1..];
      ApplyEdit(inserted, DeleteLine(inserted, l + 1)) == if l + 1 < |doc| then doc else doc + [""]
  {
    var inserted := doc[..l + 1] + [t] + doc[l + 1..];
    InsertKeepsWellFormed(doc, l, t);
    DeleteLineEffect(inserted, l + 1);
    CutInserted(doc[..l + 1], t, doc[l + 1..]);
    assert doc[..l + 1] + doc[l + 1..] == doc;
  }

  /**
   * Removing after inserting: the statement inserted after line `l` is found again as
   * a one-line `console.log` call, removing it plans deleting that line, and the
   * delete gives back the document; after the last line it leaves an empty last line,
   * since the inserted line break stays.
   */
  lemma InsertThenRemove(doc: Document, eol: EndOfLine, config: DebugLogConfig, l: nat, index: nat)
    requires WellFormedDocument(doc) && l < |doc| && QuotableSettings(config)
    ensures var inserted := ApplyEdit(doc, InsertionEdit(doc, eol, config, l, index));
      && inserted == doc[..l + 1] + [InsertedLine(doc, config, l, index)] + doc[l + 1..]
      && ConsoleLogs(inserted, l + 1, l + 1) == [ConsoleLogRange(l + 1, l + 1, Log)]
      && PlannedDeletes(inserted, l + 1, l + 1, false) == [DeleteLine(inserted, l + 1)]
      && ApplyEdit(inserted, DeleteLine(inserted, l + 1)) == if l + 1 < |doc| then doc else doc + [""]
  {
    InsertionAddsLine(doc, eol, config, l, index);
    InsertedLineRemoved(doc, config, l, index);
  }

  /** The line inserted after line `l` is found as a one-line call, and deleting it gives back the document. */
  lemma InsertedLineRemoved(doc: Document, config: DebugLogConfig, l: nat, index: nat)
    requires WellFormedDocument(doc) && l < |doc| && QuotableSettings(config)
    ensures var inserted := doc[..l + 1] + [InsertedLine(doc, config, l, index)] + doc[l + 1..];
      && ConsoleLogs(inserted, l + 1, l + 1) == [ConsoleLogRange(l + 1, l + 1, Log)]
      && PlannedDeletes(inserted, l + 1, l + 1, false) == [DeleteLine(inserted, l + 1)]
      && ApplyEdit(inserted, DeleteLine(inserted, l + 1)) == if l + 1 < |doc| then doc else doc + [""]
  {
    var t := InsertedLine(doc, config, l, index);
    var inserted := doc[..l + 1] + [t] + doc[l + 1..];
    ArgumentsQuotable(config, index);
    assert inserted[l + 1] == t;
    InsertedCallDeleted(inserted, l + 1, Indent(doc[l]), ConfigMessage(config, index), ConfigStyle(config));
    InsertedLineIsLine(doc, config, l, index);
    DeleteInsertedLine(doc, l, t);
  }

  /** A line holding an indented call with quotable arguments is found as a one-line call and planned for deletion whole. */
  lemma InsertedCallDeleted(doc: Document, l: nat, w: string, message: string, style: string)
    requires l < |doc| && doc[l] == w + LogCall(message, style)
    requires AllWhitespace(w) && Quotable(message) && Quotable(style)
    ensures ConsoleLogs(doc, l, l) == [ConsoleLogRange(l, l, Log)]
    ensures PlannedDeletes(doc, l, l, false) == [DeleteLine(doc, l)]
  {
    InsertedLineIsFound(doc, l, w, message, style);
    InsertedLineIsDetected(w, message, style);
    var r := ConsoleLogRange(l, l, Log);
    assert CreateDeleteEditAsWritten(doc, r) == Some(DeleteLine(doc, l));
    assert Deletes(doc, [r], false) == [DeleteLine(doc, l)] by {
      assert [r][1..] == [];
    }
  }

  /** Cutting an element out of the place it was put back gives the sequence it was put into. */
  lemma CutInserted<T>(a: seq<T>, x: T, b: seq<T>)
    ensures (a + [x] + b)[..|a|] == a && (a + [x] + b)[|a| + 1..] == b
  {
  }
}
