/** String primitives shared by the scripts: the Python and JavaScript
    whitespace sets, ASCII case mapping, prefix/suffix tests, substring search
    with Python's `find`/`count` semantics, `strip`, slicing, and Python's
    `str.splitlines`.  Case mapping is restricted to ASCII. */
module Text {

  // ---------------------------------------------------------------------------
  // Character classes
  // ---------------------------------------------------------------------------

  /** Python's `str.isspace()`; also what `\s` and `strip()` use on `str`. */
  predicate IsSpace(c: char) {
    || ('\U{09}' <= c <= '\U{0D}')
    || ('\U{1C}' <= c <= '\U{20}')
    || c == '\U{85}' || c == '\U{A0}' || c == '\U{1680}'
    || ('\U{2000}' <= c <= '\U{200A}')
    || c == '\U{2028}' || c == '\U{2029}' || c == '\U{202F}'
    || c == '\U{205F}' || c == '\U{3000}'
  }

  /** The characters JavaScript's `String.prototype.trim` removes
      (WhiteSpace and LineTerminator of ECMA-262). */
  predicate JsIsSpace(c: char) {
    || ('\U{09}' <= c <= '\U{0D}')
    || c == ' ' || c == '\U{A0}' || c == '\U{1680}'
    || ('\U{2000}' <= c <= '\U{200A}')
    || c == '\U{2028}' || c == '\U{2029}' || c == '\U{202F}'
    || c == '\U{205F}' || c == '\U{3000}' || c == '\U{FEFF}'
  }

  /** The line boundaries of Python's `str.splitlines` ("\r\n" is one). */
  predicate IsLineBoundary(c: char) {
    || c == '\n' || c == '\r' || c == '\U{0B}' || c == '\U{0C}'
    || ('\U{1C}' <= c <= '\U{1E}')
    || c == '\U{85}' || c == '\U{2028}' || c == '\U{2029}'
  }

  predicate NoLineBoundary(s: string) {
    forall k :: 0 <= k < |s| ==> !IsLineBoundary(s[k])
  }

  predicate IsAsciiLower(c: char) { 'a' <= c <= 'z' }
  predicate IsAsciiUpper(c: char) { 'A' <= c <= 'Z' }
  predicate IsAsciiDigit(c: char) { '0' <= c <= '9' }

  /** The class `[a-z0-9]`. */
  predicate IsLowerAlnum(c: char) { IsAsciiLower(c) || IsAsciiDigit(c) }

  /** `\w` on ASCII text: letters, digits and the underscore. */
  predicate IsWordChar(c: char) {
    IsAsciiLower(c) || IsAsciiUpper(c) || IsAsciiDigit(c) || c == '_'
  }

  function LowerChar(c: char): (d: char)
    ensures IsAsciiUpper(c) ==> IsAsciiLower(d)
    ensures !IsAsciiUpper(c) ==> d == c
  {
    if IsAsciiUpper(c) then (c as int + 32) as char else c
  }

  function UpperChar(c: char): (d: char)
    ensures IsAsciiLower(c) ==> IsAsciiUpper(d)
    ensures !IsAsciiLower(c) ==> d == c
  {
    if IsAsciiLower(c) then (c as int - 32) as char else c
  }

  /** `s.lower()` / `s.toLowerCase()` on ASCII. */
  function Lower(s: string): (r: string)
    ensures |r| == |s|
    ensures forall k :: 0 <= k < |s| ==> r[k] == LowerChar(s[k])
  {
    seq(|s|, k requires 0 <= k < |s| => LowerChar(s[k]))
  }

  /** Lower-casing leaves no ASCII capital. */
  lemma LowerNoCapital(s: string)
    ensures forall k :: 0 <= k < |Lower(s)| ==> !IsAsciiUpper(Lower(s)[k])
  {
  }

  /** A string is its own lower-case form exactly when it holds no ASCII
      capital. */
  lemma LowerFixedIff(s: string)
    ensures Lower(s) == s <==> forall k :: 0 <= k < |s| ==> !IsAsciiUpper(s[k])
  {
    if Lower(s) == s {
      LowerNoCapital(s);
    }
  }

  /** Lower-casing twice is lower-casing once. */
  lemma LowerIdempotent(s: string)
    ensures Lower(Lower(s)) == Lower(s)
  {
    LowerNoCapital(s);
    LowerFixedIff(Lower(s));
  }

  /** `s.upper()` on ASCII. */
  function Upper(s: string): (r: string)
    ensures |r| == |s|
    ensures forall k :: 0 <= k < |s| ==> r[k] == UpperChar(s[k])
  {
    seq(|s|, k requires 0 <= k < |s| => UpperChar(s[k]))
  }

  /** `s.replace(a, b)` for single characters. */
  function ReplaceChar(s: string, a: char, b: char): (r: string)
    ensures |r| == |s|
    ensures forall k :: 0 <= k < |s| ==> r[k] == (if s[k] == a then b else s[k])
  {
    seq(|s|, k requires 0 <= k < |s| => if s[k] == a then b else s[k])
  }

  /** Keeps the characters satisfying `keep`, in order (`re.sub("[^…]", "", s)`). */
  function Keep(s: string, keep: char -> bool): (r: string)
    ensures |r| <= |s|
    ensures forall k :: 0 <= k < |r| ==> keep(r[k])
    ensures (forall k :: 0 <= k < |s| ==> keep(s[k])) ==> r == s
  {
    if |s| == 0 then ""
    else if keep(s[0]) then [s[0]] + Keep(s[1..], keep)
    else Keep(s[1..], keep)
  }

  lemma {:induction false} KeepConcat(a: string, b: string, keep: char -> bool)
    ensures Keep(a + b, keep) == Keep(a, keep) + Keep(b, keep)
    decreases |a|
  {
    if |a| == 0 {
      assert a + b == b;
    } else {
      assert (a + b)[1..] == a[1..] + b;
      KeepConcat(a[1..], b, keep);
    }
  }

  // ---------------------------------------------------------------------------
  // Prefixes, suffixes and substring search
  // ---------------------------------------------------------------------------

  predicate StartsWith(s: string, p: string) {
    |p| <= |s| && s[..|p|] == p
  }

  predicate EndsWith(s: string, p: string) {
    |p| <= |s| && s[|s| - |p|..] == p
  }

  /** Case-insensitive (ASCII) suffix test against a lower-case `p`. */
  predicate EndsWithIgnoreCase(s: string, p: string) {
    |p| <= |s| && Lower(s[|s| - |p|..]) == p
  }

  predicate OccursAt(s: string, p: string, k: int) {
    0 <= k && k + |p| <= |s| && s[k..k + |p|] == p
  }

  /** Python's `s.find(p, from)`: the least position at or after `from`
      where `p` occurs, or -1. */
  function Find(s: string, p: string, from: nat): (r: int)
    ensures r == -1 || (from <= r && OccursAt(s, p, r))
    ensures r == -1 ==> forall k :: from <= k ==> !OccursAt(s, p, k)
    ensures r != -1 ==> forall k :: from <= k < r ==> !OccursAt(s, p, k)
    decreases |s| + 1 - from
  {
    if from + |p| > |s| then -1
    else if s[from..from + |p|] == p then from
    else Find(s, p, from + 1)
  }

  /** Python's `p in s`. */
  predicate Contains(s: string, p: string) {
    Find(s, p, 0) != -1
  }

  lemma ContainsIff(s: string, p: string)
    ensures Contains(s, p) <==> exists k :: OccursAt(s, p, k)
  {
    if exists k :: OccursAt(s, p, k) {
      var k :| OccursAt(s, p, k);
      assert 0 <= k;
    }
  }

  /** An occurrence inside a prefix is an occurrence in the whole string. */
  lemma OccursInPrefix(s: string, n: nat, p: string, k: int)
    requires n <= |s|
    ensures OccursAt(s[..n], p, k) <==> (OccursAt(s, p, k) && k + |p| <= n)
  {
    if 0 <= k && k + |p| <= n {
      assert s[..n][k..k + |p|] == s[k..k + |p|];
    }
  }

  /** Python's `s.count(p)` from position `from`: non-overlapping
      occurrences, scanning left to right. */
  function CountFrom(s: string, p: string, from: nat): nat
    requires |p| > 0
    decreases |s| + 1 - from
  {
    var k := Find(s, p, from);
    if k == -1 then 0 else 1 + CountFrom(s, p, k + |p|)
  }

  function Count(s: string, p: string): nat
    requires |p| > 0
  {
    CountFrom(s, p, 0)
  }

  /** Python's `s[a:b]` for non-negative bounds: empty when `a >= b`, and
      clamped to the length of `s`. */
  function Slice(s: string, a: nat, b: nat): (r: string)
    ensures a <= b <= |s| ==> r == s[a..b]
    ensures b <= a ==> r == ""
  {
    if a >= b || a >= |s| then ""
    else if b > |s| then s[a..]
    else s[a..b]
  }

  // ---------------------------------------------------------------------------
  // Stripping
  // ---------------------------------------------------------------------------

  /** Number of leading characters that satisfy `drop`. */
  function LeadingCount(s: string, drop: char -> bool): (n: nat)
    ensures n <= |s|
    ensures forall k :: 0 <= k < n ==> drop(s[k])
    ensures n < |s| ==> !drop(s[n])
  {
    if |s| == 0 || !drop(s[0]) then 0 else 1 + LeadingCount(s[1..], drop)
  }

  /** Number of trailing characters that satisfy `drop`. */
  function TrailingCount(s: string, drop: char -> bool): (n: nat)
    ensures n <= |s|
    ensures forall k :: |s| - n <= k < |s| ==> drop(s[k])
    ensures n < |s| ==> !drop(s[|s| - n - 1])
  {
    if |s| == 0 || !drop(s[|s| - 1]) then 0 else 1 + TrailingCount(s[..|s| - 1], drop)
  }

  /** `s.lstrip(chars)`, with the character set given as a predicate. */
  function LStrip(s: string, drop: char -> bool): (r: string)
    ensures |r| == 0 || !drop(r[0])
    ensures exists n :: 0 <= n <= |s| && r == s[n..]
  {
    var n := LeadingCount(s, drop);
    s[n..]
  }

  /** `r` is `s[a..b]` for some `a <= b`, where everything before `a` and
      everything from `b` on satisfies `drop`: only edge characters were
      removed. */
  predicate EdgeTrimmed(s: string, r: string, drop: char -> bool) {
    exists a, b :: 0 <= a <= b <= |s| && r == s[a..b]
                   && (forall k :: 0 <= k < a ==> drop(s[k]))
                   && (forall k :: b <= k < |s| ==> drop(s[k]))
  }

  /** `s.strip()` with the character set given as a predicate: the longest
      middle part of `s` that neither starts nor ends with such a character. */
  function StripBy(s: string, drop: char -> bool): (r: string)
    ensures |r| == 0 || (!drop(r[0]) && !drop(r[|r| - 1]))
    ensures |r| <= |s|
    ensures (forall k :: 0 <= k < |s| ==> drop(s[k])) <==> r == ""
    ensures |s| > 0 && !drop(s[0]) && !drop(s[|s| - 1]) ==> r == s
  {
    var lead := LeadingCount(s, drop);
    var rest := s[lead..];
    var trail := TrailingCount(rest, drop);
    assert rest == "" ==> lead == |s|;
    rest[..|rest| - trail]
  }

  /** Python's `s.strip()`. */
  function Strip(s: string): (r: string)
    ensures |r| == 0 || (!IsSpace(r[0]) && !IsSpace(r[|r| - 1]))
    ensures (forall k :: 0 <= k < |s| ==> IsSpace(s[k])) <==> r == ""
    ensures |s| > 0 && !IsSpace(s[0]) && !IsSpace(s[|s| - 1]) ==> r == s
  {
    StripBy(s, IsSpace)
  }

  /** JavaScript's `s.trim()`. */
  function JsTrim(s: string): (r: string)
    ensures |r| == 0 || (!JsIsSpace(r[0]) && !JsIsSpace(r[|r| - 1]))
    ensures (forall k :: 0 <= k < |s| ==> JsIsSpace(s[k])) <==> r == ""
    ensures |s| > 0 && !JsIsSpace(s[0]) && !JsIsSpace(s[|s| - 1]) ==> r == s
  {
    StripBy(s, JsIsSpace)
  }

  /** Stripping removes only edge characters. */
  lemma StripByEdgeTrimmed(s: string, drop: char -> bool)
    ensures EdgeTrimmed(s, StripBy(s, drop), drop)
  {
    var lead := LeadingCount(s, drop);
    var rest := s[lead..];
    var trail := TrailingCount(rest, drop);
    var b := lead + |rest| - trail;
    assert StripBy(s, drop) == s[lead..b];
    assert forall k :: b <= k < |s| ==> s[k] == rest[k - lead];
  }

  /** Conversely, an edge trim that neither starts nor ends with a dropped
      character is the stripped text: stripping is determined by these two
      properties. */
  lemma EdgeTrimIsStrip(s: string, r: string, drop: char -> bool)
    requires EdgeTrimmed(s, r, drop)
    requires |r| == 0 || (!drop(r[0]) && !drop(r[|r| - 1]))
    ensures r == StripBy(s, drop)
  {
    var a, b :| 0 <= a <= b <= |s| && r == s[a..b]
                && (forall k :: 0 <= k < a ==> drop(s[k])) && (forall k :: b <= k < |s| ==> drop(s[k]));
    if a == b {
      EmptyTrimIsStrip(s, drop, a);
    } else {
      assert s[a] == r[0] && s[b - 1] == r[|r| - 1];
      SliceIsStrip(s, drop, a, b);
    }
  }

  /** When everything before and from `a` is dropped, stripping leaves
      nothing. */
  lemma EmptyTrimIsStrip(s: string, drop: char -> bool, a: nat)
    requires a <= |s|
    requires forall k :: 0 <= k < a ==> drop(s[k])
    requires forall k :: a <= k < |s| ==> drop(s[k])
    ensures StripBy(s, drop) == ""
  {
    assert forall k :: 0 <= k < |s| ==> drop(s[k]);
  }

  /** The middle `s[a..b]` between dropped edges, starting and ending with a
      kept character, is what `StripBy` returns. */
  lemma SliceIsStrip(s: string, drop: char -> bool, a: nat, b: nat)
    requires a < b <= |s| && !drop(s[a]) && !drop(s[b - 1])
    requires forall k :: 0 <= k < a ==> drop(s[k])
    requires forall k :: b <= k < |s| ==> drop(s[k])
    ensures StripBy(s, drop) == s[a..b]
  {
    LeadingCountAt(s, drop, a);
    var rest := s[a..];
    forall k | b - a <= k < |rest|
      ensures drop(rest[k])
    {
      assert rest[k] == s[k + a];
    }
    assert rest[b - a - 1] == s[b - 1];
    TrailingCountAt(rest, drop, b - a);
    assert rest[..b - a] == s[a..b];
  }

  /** The leading count stops at the first kept character. */
  lemma LeadingCountAt(s: string, drop: char -> bool, a: nat)
    requires a < |s| && !drop(s[a]) && forall k :: 0 <= k < a ==> drop(s[k])
    ensures LeadingCount(s, drop) == a
  {
  }

  /** The trailing count stops at the last kept character. */
  lemma TrailingCountAt(s: string, drop: char -> bool, b: nat)
    requires 0 < b <= |s| && !drop(s[b - 1]) && forall k :: b <= k < |s| ==> drop(s[k])
    ensures TrailingCount(s, drop) == |s| - b
  {
  }

  /** `strip()` removes exactly the surrounding whitespace. */
  lemma StripIsEdgeTrim(s: string)
    ensures EdgeTrimmed(s, Strip(s), IsSpace)
  {
    StripByEdgeTrimmed(s, IsSpace);
  }

  /** `trim()` removes exactly the surrounding whitespace. */
  lemma JsTrimIsEdgeTrim(s: string)
    ensures EdgeTrimmed(s, JsTrim(s), JsIsSpace)
  {
    StripByEdgeTrimmed(s, JsIsSpace);
  }

  // ---------------------------------------------------------------------------
  // Lines
  // ---------------------------------------------------------------------------

  /** The first line boundary at or after `i`, or `|s|` when there is none. */
  function NextBoundary(s: string, i: nat): (j: nat)
    requires i <= |s|
    ensures i <= j <= |s|
    ensures j < |s| ==> IsLineBoundary(s[j])
    ensures forall k :: i <= k < j ==> !IsLineBoundary(s[k])
    decreases |s| - i
  {
    if i == |s| || IsLineBoundary(s[i]) then i else NextBoundary(s, i + 1)
  }

  /** Length of the boundary starting at `j`: two for "\r\n", else one. */
  function BoundaryLength(s: string, j: nat): (n: nat)
    requires j < |s|
    ensures 1 <= n <= 2 && j + n <= |s|
  {
    if s[j] == '\r' && j + 1 < |s| && s[j + 1] == '\n' then 2 else 1
  }

  /** Python's `s.splitlines()`: the lines without their boundaries; a final
      boundary does not start an extra empty line. */
  function SplitLines(s: string): (ls: seq<string>)
    ensures forall n :: 0 <= n < |ls| ==> NoLineBoundary(ls[n])
    ensures |s| == 0 <==> |ls| == 0
    decreases |s|
  {
    if |s| == 0 then []
    else
      var j := NextBoundary(s, 0);
      if j == |s| then [s]
      else [s[..j]] + SplitLines(s[j + BoundaryLength(s, j)..])
  }

  /** Every line followed by "\n": the text a list of lines is written as. */
  function Terminated(ls: seq<string>): string {
    if |ls| == 0 then "" else ls[0] + "\n" + Terminated(ls[1..])
  }

  /** Splitting undoes writing each line with a "\n" terminator. */
  lemma {:induction false} SplitTerminated(ls: seq<string>)
    requires forall n :: 0 <= n < |ls| ==> NoLineBoundary(ls[n])
    ensures SplitLines(Terminated(ls)) == ls
    decreases |ls|
  {
    if |ls| > 0 {
      var s := Terminated(ls);
      var l := ls[0];
      assert s == l + "\n" + Terminated(ls[1..]);
      assert s[|l|] == '\n';
      assert forall k :: 0 <= k < |l| ==> s[k] == l[k];
      assert NextBoundary(s, 0) == |l| by {
        NextBoundaryAt(s, 0, |l|);
      }
      assert BoundaryLength(s, |l|) == 1;
      assert s[..|l|] == l;
      assert s[|l| + 1..] == Terminated(ls[1..]);
      SplitTerminated(ls[1..]);
      assert ls == [l] + ls[1..];
    }
  }

  /** Writing two lists of lines one after the other. */
  lemma {:induction false} TerminatedConcat(a: seq<string>, b: seq<string>)
    ensures Terminated(a + b) == Terminated(a) + Terminated(b)
    decreases |a|
  {
    if |a| > 0 {
      assert (a + b)[0] == a[0] && (a + b)[1..] == a[1..] + b;
      TerminatedConcat(a[1..], b);
    } else {
      assert a + b == b;
    }
  }

  /** The written text starts with the first line and ends with the last
      line's final character followed by "\n". */
  lemma TerminatedEnds(ls: seq<string>)
    requires |ls| > 0 && |ls[0]| > 0 && |ls[|ls| - 1]| > 0
    ensures var t := Terminated(ls);
            var last := ls[|ls| - 1];
            && |t| >= 2 && t[0] == ls[0][0] && t[|t| - 1] == '\n'
            && t[|t| - 2] == last[|last| - 1]
  {
    var last := ls[|ls| - 1];
    assert ls == ls[..|ls| - 1] + [last];
    TerminatedConcat(ls[..|ls| - 1], [last]);
    assert Terminated([last]) == last + "\n";
    if |ls| > 1 {
      assert Terminated(ls) == ls[0] + "\n" + Terminated(ls[1..]);
    }
  }

  /** `strip()` of a text whose only surrounding whitespace is one final
      newline drops exactly that newline. */
  lemma StripFinalNewline(p: string)
    requires |p| > 0 && !IsSpace(p[0]) && !IsSpace(p[|p| - 1])
    ensures Strip(p + "\n") == p
  {
    var s := p + "\n";
    assert s[0] == p[0] && s[|s| - 2] == p[|p| - 1];
    assert LeadingCount(s, IsSpace) == 0;
    assert s[0..] == s;
    var trail := TrailingCount(s, IsSpace);
    assert trail == 1;
    assert s[..|s| - 1] == p;
  }

  /** A text ending in "\n" with no other surrounding whitespace is its
      own `strip()` plus that "\n". */
  lemma StripNewlineEnded(t: string)
    requires |t| >= 2 && t[|t| - 1] == '\n' && !IsSpace(t[0]) && !IsSpace(t[|t| - 2])
    ensures Strip(t) + "\n" == t
  {
    var p := t[..|t| - 1];
    assert p + "\n" == t;
    StripFinalNewline(p);
  }

  lemma NextBoundaryAt(s: string, i: nat, j: nat)
    requires i <= j < |s|
    requires IsLineBoundary(s[j])
    requires forall k :: i <= k < j ==> !IsLineBoundary(s[k])
    ensures NextBoundary(s, i) == j
  {
  }

  /** Python's `sep.join(parts)`. */
  function Join(parts: seq<string>, sep: string): string {
    if |parts| == 0 then ""
    else if |parts| == 1 then parts[0]
    else parts[0] + sep + Join(parts[1..], sep)
  }

  // ---------------------------------------------------------------------------
  // Numbers
  // ---------------------------------------------------------------------------

  function DigitChar(d: nat): (c: char)
    requires d < 10
    ensures IsAsciiDigit(c)
  {
    ('0' as int + d) as char
  }

  /** Python's `str(n)` for a non-negative integer. */
  function NatToString(n: nat): (r: string)
    ensures |r| > 0
    ensures forall k :: 0 <= k < |r| ==> IsAsciiDigit(r[k])
  {
    if n < 10 then [DigitChar(n)] else NatToString(n / 10) + [DigitChar(n % 10)]
  }

  /** Python's `str(n)`. */
  function IntToString(n: int): (r: string)
    ensures |r| > 0
    ensures forall k :: 0 <= k < |r| ==> IsAsciiDigit(r[k]) || r[k] == '-'
  {
    if n < 0 then "-" + NatToString(-n) else NatToString(n)
  }
}
