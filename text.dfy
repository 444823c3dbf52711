/**
 * The JavaScript string operations the extension relies on, over `string`
 * (a sequence of characters): the whitespace class shared by `String.prototype.trim`
 * and the regular-expression class `\s`, trimming, prefix and suffix tests,
 * counting, searching and the decimal rendering of a number in a template literal.
 */
module Text {

  /** ECMAScript WhiteSpace and LineTerminator code points: what `trim` strips and `\s` matches. */
  predicate IsWhitespace(c: char) {
    if c <= ' ' then c == ' ' || '\t' <= c <= '\r'
    else if c < '\U{00A0}' then false
    else
      (c == '\U{00A0}' || c == '\U{1680}' || ('\U{2000}' <= c <= '\U{200A}')
       || c == '\U{2028}' || c == '\U{2029}' || c == '\U{202F}' || c == '\U{205F}'
       || c == '\U{3000}' || c == '\U{FEFF}')
  }

  /** The characters a regular-expression `.` does not match (no `s` flag). */
  predicate IsLineTerminator(c: char) {
    c == '\n' || c == '\r' || c == '\U{2028}' || c == '\U{2029}'
  }

  predicate AllWhitespace(s: string) {
    forall i :: 0 <= i < |s| ==> IsWhitespace(s[i])
  }

  predicate NoLineTerminator(s: string) {
    forall i :: 0 <= i < |s| ==> !IsLineTerminator(s[i])
  }

  /** The first index at or after `j` that does not hold whitespace: how far a greedy `\s*` reaches. */
  function SkipWhitespace(s: string, j: nat): (k: nat)
    requires j <= |s|
    ensures j <= k <= |s|
    ensures AllWhitespace(s[j..k])
    ensures k < |s| ==> !IsWhitespace(s[k])
    decreases |s| - j
  {
    if j < |s| && IsWhitespace(s[j]) then SkipWhitespace(s, j + 1) else j
  }

  /** The length of `s` without its trailing whitespace. */
  function TrimmedEnd(s: string): (n: nat)
    ensures n <= |s|
    ensures AllWhitespace(s[n..])
    ensures n > 0 ==> !IsWhitespace(s[n - 1])
  {
    if |s| > 0 && IsWhitespace(s[|s| - 1]) then
      var n := TrimmedEnd(s[..|s| - 1]);
      assert s[n..] == s[..|s| - 1][n..] + [s[|s| - 1]];
      n
    else |s|
  }

  /** `s.trimEnd()`. */
  function TrimEnd(s: string): (r: string)
    ensures |r| <= |s| && r == s[..|r|]
    ensures AllWhitespace(s[|r|..])
    ensures r != [] ==> !IsWhitespace(r[|r| - 1])
  {
    s[..TrimmedEnd(s)]
  }

  /** `s.trim()`: `s` without its leading and trailing whitespace. */
  function Trim(s: string): (r: string)
    ensures |r| <= |s|
    ensures r == [] <==> AllWhitespace(s)
    ensures r != [] ==> !IsWhitespace(r[0]) && !IsWhitespace(r[|r| - 1])
  {
    var a := SkipWhitespace(s, 0);
    var r := TrimEnd(s[a..]);
    if r == [] then
      assert s == s[..a] + s[a..][|r|..];
      AllWhitespaceConcat(s[..a], s[a..][|r|..]);
      r
    else
      r
  }

  /** What `trim` keeps is a slice of `s` with only whitespace around it. */
  lemma TrimIsSlice(s: string)
    ensures var a, r := SkipWhitespace(s, 0), Trim(s);
      a + |r| <= |s| && r == s[a..a + |r|] && AllWhitespace(s[..a]) && AllWhitespace(s[a + |r|..])
  {
    var a := SkipWhitespace(s, 0);
    assert s[a + |Trim(s)|..] == s[a..][|Trim(s)|..];
  }

  /** Trimming a string that has no whitespace at either end changes nothing. */
  lemma TrimUntrimmed(s: string)
    requires s != [] && !IsWhitespace(s[0]) && !IsWhitespace(s[|s| - 1])
    ensures Trim(s) == s && TrimEnd(s) == s
  {
  }

  /** Skipping whitespace in a suffix is skipping it in the whole string. */
  lemma {:induction false} SkipWhitespaceShift(s: string, j: nat, k: nat)
    requires j + k <= |s|
    ensures SkipWhitespace(s[j..], k) + j == SkipWhitespace(s, j + k)
    decreases |s| - j - k
  {
    if j + k < |s| && IsWhitespace(s[j + k]) {
      SkipWhitespaceShift(s, j, k + 1);
    }
  }

  /** `\s*` from `j` stops at `k` when only whitespace lies between and none at `k`. */
  lemma {:induction false} SkipWhitespaceOver(s: string, j: nat, k: nat)
    requires j <= k <= |s| && AllWhitespace(s[j..k]) && (k < |s| ==> !IsWhitespace(s[k]))
    ensures SkipWhitespace(s, j) == k
    decreases k - j
  {
    if j < k {
      assert s[j..k][0] == s[j];
      assert s[j + 1..k] == s[j..k][1..];
      SkipWhitespaceOver(s, j + 1, k);
    }
  }

  /** Trimming indentation off a line whose text has no whitespace at either end gives that text. */
  lemma TrimIndented(w: string, x: string)
    requires AllWhitespace(w) && x != [] && !IsWhitespace(x[0]) && !IsWhitespace(x[|x| - 1])
    ensures Trim(w + x) == x
  {
    var s := w + x;
    assert s[0..|w|] == w;
    SkipWhitespaceOver(s, 0, |w|);
    assert s[|w|..] == x;
    TrimUntrimmed(x);
  }

  lemma AllWhitespaceConcat(x: string, y: string)
    requires AllWhitespace(x) && AllWhitespace(y)
    ensures AllWhitespace(x + y)
  {
  }

  predicate StartsWith(s: string, prefix: string) {
    |prefix| <= |s| && s[..|prefix|] == prefix
  }

  predicate EndsWith(s: string, suffix: string) {
    |suffix| <= |s| && s[|s| - |suffix|..] == suffix
  }

  /** The positions of `s` that hold `c`. */
  ghost function Positions(s: string, c: char): set<nat> {
    set i: nat | i < |s| && s[i] == c
  }

  /** The number of occurrences of `c` in `s` (the length of `s.match(/c/g) || []`). */
  function CountChar(s: string, c: char): (n: nat)
    ensures n <= |s|
    ensures n == 0 <==> forall i :: 0 <= i < |s| ==> s[i] != c
  {
    if s == [] then 0 else CountChar(s[..|s| - 1], c) + (if s[|s| - 1] == c then 1 else 0)
  }

  /** The count is the number of positions holding `c`. */
  lemma {:induction false} CountCharIsPositions(s: string, c: char)
    ensures CountChar(s, c) == |Positions(s, c)|
    decreases |s|
  {
    if s != [] {
      var init := s[..|s| - 1];
      CountCharIsPositions(init, c);
      assert Positions(s, c) == Positions(init, c) + (if s[|s| - 1] == c then {|s| - 1} else {}) by {
        assert forall i: nat :: i < |s| - 1 ==> s[i] == init[i];
      }
      assert |s| - 1 !in Positions(init, c);
    }
  }

  /** Counting over a concatenation adds the counts of its parts. */
  lemma {:induction false} CountCharConcat(a: string, b: string, c: char)
    ensures CountChar(a + b, c) == CountChar(a, c) + CountChar(b, c)
    decreases |b|
  {
    if b != [] {
      var init := b[..|b| - 1];
      var last := if b[|b| - 1] == c then 1 else 0;
      assert (a + b)[..|a + b| - 1] == a + init && (a + b)[|a + b| - 1] == b[|b| - 1];
      assert CountChar(a + b, c) == CountChar(a + init, c) + last;
      assert CountChar(b, c) == CountChar(init, c) + last;
      CountCharConcat(a, init, c);
    } else {
      assert a + b == a;
    }
  }

  /** Counting around one character: the counts of both sides, plus one if that character is `c`. */
  lemma CountCharAround(x: string, d: char, y: string, c: char)
    ensures CountChar(x + [d] + y, c) == CountChar(x, c) + (if d == c then 1 else 0) + CountChar(y, c)
  {
    CountCharConcat(x, [d], c);
    CountCharConcat(x + [d], y, c);
    assert CountChar([d], c) == CountChar([], c) + (if d == c then 1 else 0) by {
      assert [d][..0] == [];
    }
  }

  /** `pattern` occurs in `s` starting at index `i`. */
  predicate OccursAt(s: string, pattern: string, i: nat) {
    i + |pattern| <= |s| && s[i..i + |pattern|] == pattern
  }

  /** The first index at or after `from` where `pattern` occurs in `s`. */
  function IndexOfFrom(s: string, pattern: string, from: nat): (r: Option<nat>)
    requires from <= |s|
    ensures r.Some? ==> from <= r.value && OccursAt(s, pattern, r.value)
    ensures r.Some? ==> forall i :: from <= i < r.value ==> !OccursAt(s, pattern, i)
    ensures r.None? ==> forall i :: from <= i ==> !OccursAt(s, pattern, i)
    decreases |s| - from
  {
    if from + |pattern| > |s| then None
    else if OccursAt(s, pattern, from) then Some(from)
    else IndexOfFrom(s, pattern, from + 1)
  }

  /** `s.indexOf(pattern)`, with the source's -1 for "absent" written as `None`. */
  function IndexOf(s: string, pattern: string): (r: Option<nat>)
    ensures r.Some? ==> OccursAt(s, pattern, r.value)
    ensures r.Some? ==> forall i: nat :: i < r.value ==> !OccursAt(s, pattern, i)
    ensures r.None? ==> forall i: nat :: !OccursAt(s, pattern, i)
  {
    IndexOfFrom(s, pattern, 0)
  }

  predicate IsDigit(c: char) {
    '0' <= c <= '9'
  }

  function DigitChar(d: nat): (c: char)
    requires d < 10
    ensures IsDigit(c) && c as int - '0' as int == d
  {
    (d + '0' as int) as char
  }

  /** The decimal numeral of `n`, as a template literal renders an integral number. */
  function NatToString(n: nat): (s: string)
    ensures |s| > 0
    ensures forall i :: 0 <= i < |s| ==> IsDigit(s[i])
    ensures |s| > 1 ==> s[0] != '0'
  {
    if n < 10 then [DigitChar(n)] else NatToString(n / 10) + [DigitChar(n % 10)]
  }

  /** The value of a string of decimal digits. */
  function DecimalValue(s: string): nat
    requires forall i :: 0 <= i < |s| ==> IsDigit(s[i])
  {
    if s == [] then 0
    else
      assert IsDigit(s[|s| - 1]);
      10 * DecimalValue(s[..|s| - 1]) + (s[|s| - 1] as int - '0' as int)
  }

  /** Reading the numeral back gives the number: distinct indices render as distinct numerals. */
  lemma {:induction false} NatToStringRoundTrip(n: nat)
    ensures DecimalValue(NatToString(n)) == n
  {
    if n >= 10 {
      var s := NatToString(n);
      assert s[..|s| - 1] == NatToString(n / 10);
      NatToStringRoundTrip(n / 10);
    }
  }

  lemma NatToStringInjective(m: nat, n: nat)
    requires NatToString(m) == NatToString(n)
    ensures m == n
  {
    NatToStringRoundTrip(m);
    NatToStringRoundTrip(n);
  }

  import opened Wrappers
}
