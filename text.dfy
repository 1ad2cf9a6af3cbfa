/** Strings as JavaScript sees them in the rule parser: the `\s` character class,
    `trim`, removal of trailing whitespace, `split('\n')` and decimal numerals. */
module JsText {

  /** JavaScript's `\s`, which is also the set `String.prototype.trim` removes:
      the WhiteSpace characters (tab, vertical tab, form feed, space, no-break space,
      the byte order mark and the other space separators) and the LineTerminators. */
  predicate IsSpace(c: char) {
    c == '\t' || c == '\n' || c == '\U{B}' || c == '\U{C}' || c == '\r' || c == ' '
    || c == '\U{A0}' || c == '\U{1680}' || ('\U{2000}' <= c <= '\U{200A}')
    || c == '\U{2028}' || c == '\U{2029}' || c == '\U{202F}' || c == '\U{205F}'
    || c == '\U{3000}' || c == '\U{FEFF}'
  }

  /** The LineTerminators: the characters `.` in a regular expression does not match
      and after which `^` matches in multiline mode. */
  predicate IsLineTerminator(c: char) {
    c == '\n' || c == '\r' || c == '\U{2028}' || c == '\U{2029}'
  }

  /** `\d`: an ASCII decimal digit. */
  predicate IsDigit(c: char) {
    '0' <= c <= '9'
  }

  predicate StartsWith(s: string, prefix: string) {
    prefix <= s
  }

  predicate AllSpace(s: string) {
    forall k :: 0 <= k < |s| ==> IsSpace(s[k])
  }

  predicate HasLineTerminator(s: string) {
    exists k :: 0 <= k < |s| && IsLineTerminator(s[k])
  }

  /** The length of the longest prefix of `s[from..]` made of characters satisfying `IsSpace`. */
  function SpaceRun(s: string, from: nat): (n: nat)
    requires from <= |s|
    ensures from + n <= |s|
    decreases |s| - from
  {
    if from == |s| || !IsSpace(s[from]) then 0 else 1 + SpaceRun(s, from + 1)
  }

  /** The run is whitespace, and it is maximal. */
  lemma {:induction false} SpaceRunSpec(s: string, from: nat)
    requires from <= |s|
    ensures forall k :: from <= k < from + SpaceRun(s, from) ==> IsSpace(s[k])
    ensures from + SpaceRun(s, from) == |s| || !IsSpace(s[from + SpaceRun(s, from)])
    decreases |s| - from
  {
    if from < |s| && IsSpace(s[from]) {
      SpaceRunSpec(s, from + 1);
    }
  }

  /** The number of leading whitespace characters: what `^(\s*)` captures. */
  function LeadingSpaces(s: string): (n: nat)
    ensures n <= |s|
  {
    SpaceRun(s, 0)
  }

  /** The leading whitespace is whitespace, and all of it. */
  lemma LeadingSpacesSpec(s: string)
    ensures AllSpace(s[..LeadingSpaces(s)])
    ensures LeadingSpaces(s) == |s| || !IsSpace(s[LeadingSpaces(s)])
  {
    SpaceRunSpec(s, 0);
    var n := LeadingSpaces(s);
    forall k | 0 <= k < n ensures IsSpace(s[..n][k]) {
      assert s[..n][k] == s[k];
    }
  }

  /** `s.replace(/\s+$/, '')`: the leftmost match of `\s+$` is the maximal run of
      whitespace that reaches the end, and it is removed. */
  function StripTrailing(s: string): string
    decreases |s|
  {
    if s != [] && IsSpace(s[|s| - 1]) then StripTrailing(s[..|s| - 1]) else s
  }

  /** What `StripTrailing` removes is whitespace, and all of it: the result is a prefix
      that does not end in whitespace. */
  lemma {:induction false} StripTrailingSpec(s: string)
    ensures StripTrailing(s) <= s
    ensures StripTrailing(s) == [] || !IsSpace(StripTrailing(s)[|StripTrailing(s)| - 1])
    ensures AllSpace(s[|StripTrailing(s)|..])
    decreases |s|
  {
    if s != [] && IsSpace(s[|s| - 1]) {
      var t := s[..|s| - 1];
      StripTrailingSpec(t);
      var r := StripTrailing(t);
      assert s[|r|..] == t[|r|..] + [s[|s| - 1]];
    }
  }

  /** `s.trim()`: leading and trailing whitespace removed. */
  function Trim(s: string): string {
    StripTrailing(s[LeadingSpaces(s)..])
  }

  /** The trimmed form is empty exactly for blank strings, and otherwise neither
      starts nor ends with whitespace. */
  lemma TrimSpec(s: string)
    ensures Trim(s) == [] <==> AllSpace(s)
    ensures Trim(s) == [] || (!IsSpace(Trim(s)[0]) && !IsSpace(Trim(s)[|Trim(s)| - 1]))
  {
    var n := LeadingSpaces(s);
    var r := StripTrailing(s[n..]);
    LeadingSpacesSpec(s);
    StripTrailingSpec(s[n..]);
    if r == [] {
      assert s[n..][|r|..] == s[n..];
      AllSpaceSplit(s, n);
    } else {
      assert r[0] == s[n];
    }
  }

  lemma AllSpaceSplit(s: string, n: nat)
    requires n <= |s| && AllSpace(s[..n]) && AllSpace(s[n..])
    ensures AllSpace(s)
  {
    forall k | 0 <= k < |s| ensures IsSpace(s[k]) {
      if k < n {
        assert s[..n][k] == s[k];
      } else {
        assert s[n..][k - n] == s[k];
      }
    }
  }

  /** Whitespace in front of a string does not change its trimmed form. */
  lemma {:induction false} TrimSkipsSpaces(w: string, x: string)
    requires AllSpace(w)
    ensures Trim(w + x) == Trim(x)
  {
    var s := w + x;
    var n := LeadingSpaces(s);
    var m := LeadingSpaces(x);
    LeadingSpacesSpec(s);
    LeadingSpacesSpec(x);
    assert n == |w| + m by {
      assert forall k :: 0 <= k < m ==> s[|w| + k] == x[k];
      assert forall k :: 0 <= k < |w| ==> s[k] == w[k];
      assert |w| + m < |s| ==> s[|w| + m] == x[m];
    }
    assert s[n..] == x[m..];
  }

  /** Index of the first occurrence of `c` in `s`. */
  function IndexOf(s: string, c: char): (k: nat)
    requires c in s
    ensures k < |s| && s[k] == c && c !in s[..k]
  {
    if s[0] == c then 0 else 1 + IndexOf(s[1..], c)
  }

  /** `s.split('\n')`: the pieces between newline characters, at least one. */
  function SplitLines(s: string): (lines: seq<string>)
    ensures |lines| >= 1
    ensures forall k :: 0 <= k < |lines| ==> '\n' !in lines[k]
    decreases |s|
  {
    if '\n' in s then
      var k := IndexOf(s, '\n');
      [s[..k]] + SplitLines(s[k + 1..])
    else
      [s]
  }

  /** `lines.join('\n')`. */
  function JoinLines(lines: seq<string>): string
    requires |lines| >= 1
  {
    if |lines| == 1 then lines[0] else lines[0] + "\n" + JoinLines(lines[1..])
  }

  /** Splitting loses nothing: joining the pieces with newlines gives the text back. */
  lemma {:induction false} JoinSplitLines(s: string)
    ensures JoinLines(SplitLines(s)) == s
    decreases |s|
  {
    if '\n' in s {
      var k := IndexOf(s, '\n');
      var lines := SplitLines(s);
      var rest := SplitLines(s[k + 1..]);
      assert lines == [s[..k]] + rest;
      assert lines[1..] == rest;
      JoinSplitLines(s[k + 1..]);
      assert JoinLines(lines) == s[..k] + "\n" + s[k + 1..];
      assert s == s[..k] + "\n" + s[k + 1..];
    }
  }

  /** The three properties of `IndexOf` determine it. */
  lemma {:induction false} IndexOfUnique(s: string, c: char, k: nat)
    requires k < |s| && s[k] == c && c !in s[..k]
    ensures IndexOf(s, c) == k
    decreases k
  {
    if k > 0 {
      assert s[0] == s[..k][0];
      assert s[1..][..k - 1] == s[1..k];
      IndexOfUnique(s[1..], c, k - 1);
    }
  }

  /** The first newline of `a + "\n" + rest`, when `a` has none, is the one after `a`. */
  lemma IndexOfAfter(a: string, rest: string)
    requires '\n' !in a
    ensures '\n' in a + "\n" + rest
    ensures IndexOf(a + "\n" + rest, '\n') == |a|
  {
    var s := a + "\n" + rest;
    assert s[|a|] == '\n';
    assert s[..|a|] == a;
    IndexOfUnique(s, '\n', |a|);
  }

  /** Splitting a join of newline-free pieces gives the pieces back. */
  lemma {:induction false} SplitJoinLines(lines: seq<string>)
    requires |lines| >= 1
    requires forall k :: 0 <= k < |lines| ==> '\n' !in lines[k]
    ensures SplitLines(JoinLines(lines)) == lines
    decreases |lines|
  {
    if |lines| > 1 {
      var rest := JoinLines(lines[1..]);
      var s := lines[0] + "\n" + rest;
      assert JoinLines(lines) == s;
      IndexOfAfter(lines[0], rest);
      var k := |lines[0]|;
      assert s[..k] == lines[0];
      assert s[k + 1..] == rest;
      SplitJoinLines(lines[1..]);
      assert lines == [lines[0]] + lines[1..];
    }
  }

  /** Appending one more line to a text appends one more piece to its split. */
  lemma SplitLinesAppend(s: string, last: string)
    requires '\n' !in last
    ensures SplitLines(s + "\n" + last) == SplitLines(s) + [last]
  {
    var lines := SplitLines(s);
    JoinSplitLines(s);
    JoinLinesAppend(lines, last);
    SplitJoinLines(lines + [last]);
  }

  lemma {:induction false} JoinLinesAppend(lines: seq<string>, last: string)
    requires |lines| >= 1
    ensures JoinLines(lines + [last]) == JoinLines(lines) + "\n" + last
    decreases |lines|
  {
    if |lines| > 1 {
      assert (lines + [last])[1..] == lines[1..] + [last];
      JoinLinesAppend(lines[1..], last);
    } else {
      assert (lines + [last])[1..] == [last];
    }
  }

  /** The decimal digit for `d`. */
  function DigitChar(d: nat): (c: char)
    requires d < 10
    ensures IsDigit(c)
  {
    (48 + d) as char
  }

  /** The value of an ASCII digit. */
  function DigitValue(c: char): (d: nat)
    requires IsDigit(c)
    ensures d < 10
  {
    c as int - 48
  }

  predicate AllDigits(s: string) {
    forall k :: 0 <= k < |s| ==> IsDigit(s[k])
  }

  /** The decimal numeral JavaScript prints for a natural number (template literal
      interpolation), without leading zeros. */
  function NatToString(n: nat): (s: string)
    ensures |s| >= 1 && AllDigits(s)
    ensures s[0] == '0' <==> n == 0
    decreases n
  {
    if n < 10 then [DigitChar(n)] else NatToString(n / 10) + [DigitChar(n % 10)]
  }

  /** `parseInt(s, 10)` on a string of ASCII digits. */
  function DigitsValue(s: string): nat
    requires AllDigits(s)
    decreases |s|
  {
    if s == [] then 0 else DigitsValue(s[..|s| - 1]) * 10 + DigitValue(s[|s| - 1])
  }

  /** Reading back a printed numeral gives the number. */
  lemma {:induction false} DigitsValueOfNatToString(n: nat)
    ensures DigitsValue(NatToString(n)) == n
    decreases n
  {
    var s := NatToString(n);
    if n >= 10 {
      DigitsValueOfNatToString(n / 10);
      assert s[..|s| - 1] == NatToString(n / 10);
    }
  }

  /** Different numbers print differently. */
  lemma NatToStringInjective(a: nat, b: nat)
    requires a != b
    ensures NatToString(a) != NatToString(b)
  {
    DigitsValueOfNatToString(a);
    DigitsValueOfNatToString(b);
  }

  /** The length of the run of ASCII digits that starts at `from`. */
  function DigitRun(s: string, from: nat): (n: nat)
    requires from <= |s|
    ensures from + n <= |s|
    ensures forall k :: from <= k < from + n ==> IsDigit(s[k])
    ensures from + n == |s| || !IsDigit(s[from + n])
    decreases |s| - from
  {
    if from == |s| || !IsDigit(s[from]) then 0 else 1 + DigitRun(s, from + 1)
  }

  lemma DigitRunDigits(s: string, from: nat)
    requires from <= |s|
    ensures AllDigits(s[from..from + DigitRun(s, from)])
  {
    var t := s[from..from + DigitRun(s, from)];
    forall k | 0 <= k < |t| ensures IsDigit(t[k]) {
      assert t[k] == s[from + k];
    }
  }

  /** A prefix one longer is the prefix and the next element; the rest follows it. */
  lemma TakeOneMore<T>(s: seq<T>, k: nat)
    requires k < |s|
    ensures s[..k + 1] == s[..k] + [s[k]]
    ensures s == s[..k + 1] + s[k + 1..]
  {
  }

  lemma ConcatAssoc<T>(x: seq<T>, y: seq<T>, z: seq<T>)
    ensures x + (y + z) == (x + y) + z
  {
  }
}
