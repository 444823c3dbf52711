/**
 * The slice of the VS Code API the extension reads: a document as its lines (without
 * line-break characters), positions, ranges, text edits, the document's end-of-line
 * style, and the two ranges `TextLine` offers for a line.
 */
module Host {
  import opened Text

  /** `TextDocument`, reduced to its lines; `lineCount` is `|doc|`. */
  type Document = seq<string>

  datatype Position = Position(line: nat, character: nat)
  datatype Range = Range(start: Position, end: Position)
  datatype TextEdit = TextEdit(range: Range, newText: string)
  datatype EndOfLine = LF | CRLF

  /** `document.eol === vscode.EndOfLine.LF ? '\n' : '\r\n'`. */
  function EolText(eol: EndOfLine): string {
    match eol
    case LF => "\n"
    case CRLF => "\r\n"
  }

  /** `Position.isBeforeOrEqual`. */
  predicate PositionLe(p: Position, q: Position) {
    p.line < q.line || (p.line == q.line && p.character <= q.character)
  }

  /** `TextLine.range`: the line's content, without its line break. */
  function LineRange(doc: Document, line: nat): Range
    requires line < |doc|
  {
    Range(Position(line, 0), Position(line, |doc[line]|))
  }

  /**
   * `TextLine.rangeIncludingLineBreak`: up to the start of the next line, or the
   * content range on the last line, which has no line break.
   */
  function RangeIncludingLineBreak(doc: Document, line: nat): Range
    requires line < |doc|
  {
    if line + 1 < |doc| then Range(Position(line, 0), Position(line + 1, 0))
    else LineRange(doc, line)
  }

  predicate ValidPosition(doc: Document, p: Position) {
    p.line < |doc| && p.character <= |doc[p.line]|
  }

  predicate ValidRange(doc: Document, r: Range) {
    ValidPosition(doc, r.start) && ValidPosition(doc, r.end) && PositionLe(r.start, r.end)
  }

  /** The characters at which a document's text is split into lines. */
  predicate IsLineBreak(c: char) {
    c == '\n' || c == '\r'
  }

  predicate NoLineBreak(s: string) {
    forall i :: 0 <= i < |s| ==> !IsLineBreak(s[i])
  }

  /** Every line of the document is free of line-break characters, as the editor keeps them. */
  predicate WellFormedDocument(doc: Document) {
    forall l :: 0 <= l < |doc| ==> NoLineBreak(doc[l])
  }

  /** The lines of a text: split at each `\r\n`, `\n` or lone `\r`. */
  function SplitLines(s: string): (r: seq<string>)
    ensures |r| > 0
    decreases |s|
  {
    if s == [] then [""]
    else if s[0] == '\n' then [""] + SplitLines(s[1..])
    else if s[0] == '\r' then
      (if |s| > 1 && s[1] == '\n' then [""] + SplitLines(s[2..]) else [""] + SplitLines(s[1..]))
    else
      var r := SplitLines(s[1..]);
      [[s[0]] + r[0]] + r[1..]
  }

  /** Text without a line break is one line. */
  lemma {:induction false} SplitSingleLine(s: string)
    requires NoLineBreak(s)
    ensures SplitLines(s) == [s]
    decreases |s|
  {
    if s != [] {
      SplitSingleLine(s[1..]);
      assert [s[0]] + s[1..] == s;
    }
  }

  /** A line, a line break of either style, and more text: the line, then the lines of the rest. */
  lemma {:induction false} SplitAtBreak(x: string, eol: EndOfLine, y: string)
    requires NoLineBreak(x)
    ensures SplitLines(x + EolText(eol) + y) == [x] + SplitLines(y)
    decreases |x|
  {
    var s := x + EolText(eol) + y;
    if x == [] {
      assert s == EolText(eol) + y;
      match eol
      case LF => assert s[1..] == y;
      case CRLF => assert s[2..] == y;
    } else {
      assert s[1..] == x[1..] + EolText(eol) + y;
      SplitAtBreak(x[1..], eol, y);
      assert [x[0]] + x[1..] == x;
    }
  }

  /**
   * What one edit does to the lines: the text before the range start, the new text
   * and the text after the range end, split into lines, take the place of the lines
   * the range touches.
   */
  function ApplyEdit(doc: Document, e: TextEdit): (r: Document)
    requires ValidRange(doc, e.range)
  {
    var s, t := e.range.start, e.range.end;
    doc[..s.line] + SplitLines(doc[s.line][..s.character] + e.newText + doc[t.line][t.character..]) + doc[t.line + 1..]
  }

  /** Deleting a non-last line together with its line break removes exactly that line. */
  lemma DeleteLineWithBreak(doc: Document, line: nat)
    requires WellFormedDocument(doc) && line + 1 < |doc|
    ensures ApplyEdit(doc, TextEdit(RangeIncludingLineBreak(doc, line), "")) == doc[..line] + doc[line + 1..]
  {
    var e := TextEdit(RangeIncludingLineBreak(doc, line), "");
    assert e.range == Range(Position(line, 0), Position(line + 1, 0));
    assert doc[line][..0] + "" + doc[line + 1][0..] == doc[line + 1];
    SplitSingleLine(doc[line + 1]);
    assert [doc[line + 1]] + doc[line + 2..] == doc[line + 1..];
  }

  /** The last line has no line break, so deleting it leaves an empty last line. */
  lemma DeleteLastLine(doc: Document, line: nat)
    requires line + 1 == |doc|
    ensures ApplyEdit(doc, TextEdit(RangeIncludingLineBreak(doc, line), "")) == doc[..line] + [""]
  {
    var e := TextEdit(RangeIncludingLineBreak(doc, line), "");
    assert e.range == Range(Position(line, 0), Position(line, |doc[line]|));
    assert doc[line][..0] + "" + doc[line][|doc[line]|..] == "";
    assert doc[line + 1..] == [];
  }

  /** Replacing a line's content range replaces that line and nothing else. */
  lemma ReplaceLineContent(doc: Document, line: nat, text: string)
    requires line < |doc| && NoLineBreak(text)
    ensures ApplyEdit(doc, TextEdit(LineRange(doc, line), text)) == doc[..line] + [text] + doc[line + 1..]
  {
    assert doc[line][..0] + text + doc[line][|doc[line]|..] == text;
    SplitSingleLine(text);
  }

  /** Inserting a line break and a line at the end of a line adds that line right after it. */
  lemma InsertLineAfter(doc: Document, line: nat, eol: EndOfLine, text: string)
    requires WellFormedDocument(doc) && line < |doc| && NoLineBreak(text)
    ensures var p := LineRange(doc, line).end;
      ApplyEdit(doc, TextEdit(Range(p, p), EolText(eol) + text)) == doc[..line + 1] + [text] + doc[line + 1..]
  {
    var x := doc[line];
    assert x[..|x|] + (EolText(eol) + text) + x[|x|..] == x + EolText(eol) + text;
    SplitAtBreak(x, eol, text);
    SplitSingleLine(text);
    assert doc[..line] + [x] == doc[..line + 1];
  }

  /** Deleting from the start of line `s` to the start of line `e` removes lines `s` to `e - 1`. */
  lemma DeleteLinesBefore(doc: Document, s: nat, e: nat)
    requires WellFormedDocument(doc) && s < e < |doc|
    ensures ApplyEdit(doc, TextEdit(Range(Position(s, 0), Position(e, 0)), "")) == doc[..s] + doc[e..]
  {
    var x := doc[e];
    assert doc[s][..0] + "" + x[0..] == x;
    SplitSingleLine(x);
    calc {
      ApplyEdit(doc, TextEdit(Range(Position(s, 0), Position(e, 0)), ""));
      doc[..s] + SplitLines(x) + doc[e + 1..];
      doc[..s] + ([x] + doc[e + 1..]);
      { assert [x] + doc[e + 1..] == doc[e..]; }
      doc[..s] + doc[e..];
    }
  }

  /** Deleting from the start of line `s` to the end of line `e` leaves one empty line in their place. */
  lemma DeleteLinesToEnd(doc: Document, s: nat, e: nat)
    requires s <= e < |doc|
    ensures ApplyEdit(doc, TextEdit(Range(Position(s, 0), Position(e, |doc[e]|)), "")) == doc[..s] + [""] + doc[e + 1..]
  {
    assert doc[s][..0] + "" + doc[e][|doc[e]|..] == "";
  }
}
