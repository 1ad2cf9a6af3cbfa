/** The indentation-based rule format and its parser (`parseMdcRules`).

    The parser keeps a stack of the indents of the open nodes (the rightmost path of
    the forest built so far) and a pending-`OR` flag. Its specification is stated
    without the stack: the parent of a rule line is the closest earlier rule line with
    a strictly smaller indent (`Parent`), its depth follows from that (`Depth`), and
    the forest is the one whose pre-order, with depths, is the list of rule lines
    (`Expected`, `Assemble`, `Preorder`). */
module MdcParser {
  import opened JsText
  import opened RuleModel

  // ---------------------------------------------------------------------------
  // Lines

  /** A line survives normalisation when it is non-empty and starts with neither
      `#` nor `---`. */
  predicate Kept(line: string) {
    line != [] && !StartsWith(line, "#") && !StartsWith(line, "---")
  }

  /** Trailing whitespace removed from every line, then blank, comment and separator
      lines dropped, order kept. */
  function Survivors(raw: seq<string>): (lines: seq<string>)
    ensures |lines| <= |raw|
    ensures forall k :: 0 <= k < |lines| ==> Kept(lines[k]) && !IsSpace(lines[k][|lines[k]| - 1])
  {
    if raw == [] then []
    else
      var line := StripTrailing(raw[0]);
      StripTrailingSpec(raw[0]);
      (if Kept(line) then [line] else []) + Survivors(raw[1..])
  }

  lemma {:induction false} SurvivorsAppend(a: seq<string>, b: seq<string>)
    ensures Survivors(a + b) == Survivors(a) + Survivors(b)
    decreases |a|
  {
    if a == [] {
      assert a + b == b;
    } else {
      var line := StripTrailing(a[0]);
      var head := if Kept(line) then [line] else [];
      assert (a + b)[0] == a[0] && (a + b)[1..] == a[1..] + b;
      SurvivorsAppend(a[1..], b);
      assert Survivors(a + b) == head + (Survivors(a[1..]) + Survivors(b));
      assert Survivors(a) == head + Survivors(a[1..]);
      ConcatAssoc(head, Survivors(a[1..]), Survivors(b));
    }
  }

  /** One raw line survives exactly when its stripped form is kept, and then as that
      stripped form; with `SurvivorsAppend` this fixes the result for every input. */
  lemma SurvivorsOne(line: string)
    ensures Survivors([line]) == if Kept(StripTrailing(line)) then [StripTrailing(line)] else []
  {
    assert [line][1..] == [];
  }

  /** Every raw line whose stripped form is kept survives as that stripped form, right
      after the survivors of the lines before it; any other raw line adds nothing. */
  lemma SurvivorsKeepInOrder(raw: seq<string>, k: nat)
    requires k < |raw|
    ensures Kept(StripTrailing(raw[k])) ==> Survivors(raw[..k + 1]) == Survivors(raw[..k]) + [StripTrailing(raw[k])]
    ensures !Kept(StripTrailing(raw[k])) ==> Survivors(raw[..k + 1]) == Survivors(raw[..k])
    ensures Survivors(raw[..k + 1]) <= Survivors(raw)
  {
    var before, upto, after := raw[..k], raw[..k + 1], raw[k + 1..];
    assert Survivors(upto) == Survivors(before) + Survivors([raw[k]]) by {
      TakeOneMore(raw, k);
      SurvivorsAppend(before, [raw[k]]);
    }
    SurvivorsOne(raw[k]);
    assert Survivors(raw) == Survivors(upto) + Survivors(after) by {
      TakeOneMore(raw, k);
      SurvivorsAppend(upto, after);
    }
  }

  /** The lines the parser loops over. */
  function NormalizeLines(content: string): seq<string> {
    Survivors(SplitLines(content))
  }

  /** What one surviving line is to the parser. */
  datatype LineKind = OrMarker | RuleLine(indent: nat, name: string, description: string) | Other

  const RuleOpen: string := "[Rule-"

  /** The exact `OR` test, then the pattern `^(\s*)\[(Rule-\d+)\]\s*(.*)$`: the
      indent is the number of leading whitespace characters, the name the bracketed
      token, the description the trimmed rest, which must hold no line terminator. */
  function Classify(line: string): LineKind {
    if line == "OR" then OrMarker
    else
      var indent := LeadingSpaces(line);
      MatchBracket(line[indent..], indent)
  }

  /** The part of the pattern from `\[` on, against the line after its indent. */
  function MatchBracket(rest: string, indent: nat): LineKind {
    if !StartsWith(rest, RuleOpen) then Other
    else
      var close := |RuleOpen| + DigitRun(rest, |RuleOpen|);
      if close == |RuleOpen| || close == |rest| || rest[close] != ']' then Other
      else MatchTail(rest[close + 1..], indent, "Rule-" + rest[|RuleOpen|..close])
  }

  /** The part `\s*(.*)$` of the pattern, against what follows the closing bracket. */
  function MatchTail(after: string, indent: nat, name: string): LineKind {
    var tail := after[LeadingSpaces(after)..];
    if HasLineTerminator(tail) then Other else RuleLine(indent, name, Trim(tail))
  }

  /** A line of the form whitespace, `[Rule-`, digits, `]`, whitespace, text without a
      line terminator. */
  predicate RuleLineShape(line: string, w: string, digits: string, w2: string, x: string) {
    && line == w + RuleOpen + digits + "]" + w2 + x
    && AllSpace(w) && digits != [] && AllDigits(digits) && AllSpace(w2)
    && !HasLineTerminator(x)
  }

  lemma LeadingSpacesOf(w: string, rest: string)
    requires AllSpace(w) && rest != [] && !IsSpace(rest[0])
    ensures LeadingSpaces(w + rest) == |w|
  {
    var s := w + rest;
    LeadingSpacesSpec(s);
    assert forall k :: 0 <= k < |w| ==> s[k] == w[k];
    assert s[|w|] == rest[0];
  }

  lemma MatchTailOf(w2: string, x: string, indent: nat, name: string)
    requires AllSpace(w2) && !HasLineTerminator(x)
    ensures MatchTail(w2 + x, indent, name) == RuleLine(indent, name, Trim(x))
  {
    var after := w2 + x;
    var lead := LeadingSpaces(after);
    LeadingSpacesSpec(after);
    assert lead >= |w2| by {
      assert forall k :: 0 <= k < |w2| ==> after[k] == w2[k];
    }
    var m := lead - |w2|;
    var tail := after[lead..];
    assert tail == x[m..];
    assert x == x[..m] + tail;
    assert AllSpace(x[..m]) by {
      forall k | 0 <= k < m ensures IsSpace(x[k]) {
        assert x[k] == after[..lead][|w2| + k];
      }
    }
    assert !HasLineTerminator(tail) by {
      assert forall k :: 0 <= k < |tail| ==> tail[k] == x[m + k];
    }
    TrimSkipsSpaces(x[..m], tail);
  }

  lemma MatchBracketOf(digits: string, after: string, indent: nat)
    requires digits != [] && AllDigits(digits)
    ensures MatchBracket(RuleOpen + digits + "]" + after, indent) == MatchTail(after, indent, "Rule-" + digits)
  {
    var rest := RuleOpen + digits + "]" + after;
    assert StartsWith(rest, RuleOpen);
    var run := DigitRun(rest, |RuleOpen|);
    assert run == |digits| by {
      assert forall k :: 0 <= k < |digits| ==> rest[|RuleOpen| + k] == digits[k];
      assert rest[|RuleOpen| + |digits|] == ']';
    }
    assert rest[|RuleOpen| + run] == ']';
    assert rest[|RuleOpen|..|RuleOpen| + run] == digits;
    assert rest[|RuleOpen| + run + 1..] == after;
  }

  /** Every line of rule shape is a rule line, with the indent, name and description
      the pattern's groups give. */
  lemma ClassifyComplete(line: string, w: string, digits: string, w2: string, x: string)
    requires RuleLineShape(line, w, digits, w2, x)
    ensures Classify(line) == RuleLine(|w|, "Rule-" + digits, Trim(x))
  {
    var rest := RuleOpen + digits + "]" + w2 + x;
    assert line == w + rest;
    assert rest[0] == '[';
    assert line != "OR" by {
      assert |line| >= 8;
    }
    LeadingSpacesOf(w, rest);
    assert line[|w|..] == rest;
    assert rest == RuleOpen + digits + "]" + (w2 + x);
    MatchBracketOf(digits, w2 + x, |w|);
    MatchTailOf(w2, x, |w|, "Rule-" + digits);
  }

  /** A string that starts with `[Rule-` and has `]` at `close`, cut into its pieces. */
  lemma BracketPieces(rest: string, close: nat)
    requires |RuleOpen| <= close < |rest| && RuleOpen <= rest && rest[close] == ']'
    ensures rest == RuleOpen + rest[|RuleOpen|..close] + "]" + rest[close + 1..]
  {
    assert rest[..|RuleOpen|] == RuleOpen;
    assert rest == rest[..|RuleOpen|] + rest[|RuleOpen|..close] + [rest[close]] + rest[close + 1..];
  }

  /** The digits and the text after the bracket of a line whose bracket part matches. */
  lemma MatchBracketParts(rest: string, indent: nat) returns (digits: string, after: string)
    requires MatchBracket(rest, indent).RuleLine?
    ensures digits != [] && AllDigits(digits) && rest == RuleOpen + digits + "]" + after
    ensures MatchBracket(rest, indent) == MatchTail(after, indent, "Rule-" + digits)
  {
    var run := DigitRun(rest, |RuleOpen|);
    var close := |RuleOpen| + run;
    assert run > 0 && close < |rest| && rest[close] == ']';
    digits, after := rest[|RuleOpen|..close], rest[close + 1..];
    BracketPieces(rest, close);
    DigitRunDigits(rest, |RuleOpen|);
  }

  /** The leading whitespace and the rest of what follows the bracket of a rule line. */
  lemma MatchTailParts(after: string, indent: nat, name: string) returns (w2: string, x: string)
    requires MatchTail(after, indent, name).RuleLine?
    ensures AllSpace(w2) && !HasLineTerminator(x) && after == w2 + x
    ensures MatchTail(after, indent, name) == RuleLine(indent, name, Trim(x))
  {
    var lead := LeadingSpaces(after);
    LeadingSpacesSpec(after);
    w2, x := after[..lead], after[lead..];
    assert after == w2 + x;
  }

  lemma ConcatPieces(line: string, w: string, rest: string, digits: string, after: string, w2: string, x: string)
    requires line == w + rest && rest == RuleOpen + digits + "]" + after && after == w2 + x
    ensures line == w + RuleOpen + digits + "]" + w2 + x
  {
  }

  /** The pieces of a rule line: its indent, the digits of its name, the whitespace
      after the bracket and the rest. */
  lemma ClassifyParts(line: string) returns (w: string, digits: string, w2: string, x: string)
    requires Classify(line).RuleLine?
    ensures RuleLineShape(line, w, digits, w2, x)
    ensures Classify(line) == RuleLine(|w|, "Rule-" + digits, Trim(x))
  {
    var indent := LeadingSpaces(line);
    LeadingSpacesSpec(line);
    var rest, after;
    w, rest := line[..indent], line[indent..];
    assert line == w + rest;
    assert Classify(line) == MatchBracket(rest, indent);
    digits, after := MatchBracketParts(rest, indent);
    w2, x := MatchTailParts(after, indent, "Rule-" + digits);
    ConcatPieces(line, w, rest, digits, after, w2, x);
  }

  /** Every rule line has rule shape, and its indent, name and description are the
      pattern's groups. */
  lemma ClassifySound(line: string)
    requires Classify(line).RuleLine?
    ensures exists w, digits, w2, x ::
      (RuleLineShape(line, w, digits, w2, x) && Classify(line) == RuleLine(|w|, "Rule-" + digits, Trim(x)))
  {
    var w, digits, w2, x := ClassifyParts(line);
  }

  /** The kind of every line. */
  function Kinds(lines: seq<string>): (kinds: seq<LineKind>)
    ensures |kinds| == |lines|
  {
    if lines == [] then [] else [Classify(lines[0])] + Kinds(lines[1..])
  }

  lemma {:induction false} KindsAt(lines: seq<string>, k: nat)
    requires k < |lines|
    ensures Kinds(lines)[k] == Classify(lines[k])
    decreases k
  {
    if k > 0 {
      KindsAt(lines[1..], k - 1);
    }
  }

  lemma {:induction false} KindsAppend(a: seq<string>, b: seq<string>)
    ensures Kinds(a + b) == Kinds(a) + Kinds(b)
    decreases |a|
  {
    if a == [] {
      assert a + b == b;
    } else {
      assert (a + b)[0] == a[0] && (a + b)[1..] == a[1..] + b;
      KindsAppend(a[1..], b);
    }
  }

  // ---------------------------------------------------------------------------
  // Rule lines and the pending OR flag

  /** A rule line, with whether an `OR` was pending when it was read. */
  datatype Event = Event(indent: nat, name: string, description: string, orPending: bool)

  /** The pending flag after lines of these kinds: set by `OR`, cleared by a rule
      line, left alone by any other line. */
  function Pending(kinds: seq<LineKind>): bool
    decreases |kinds|
  {
    if kinds == [] then false
    else
      match kinds[|kinds| - 1]
      case OrMarker => true
      case RuleLine(_, _, _) => false
      case Other => Pending(kinds[..|kinds| - 1])
  }

  /** The rule lines among lines of these kinds, in order. */
  function Events(kinds: seq<LineKind>): seq<Event>
    decreases |kinds|
  {
    if kinds == [] then []
    else
      var prev := kinds[..|kinds| - 1];
      match kinds[|kinds| - 1]
      case RuleLine(indent, name, description) => Events(prev) + [Event(indent, name, description, Pending(prev))]
      case _ => Events(prev)
  }

  /** Line `k` is an `OR` and no rule line follows it. */
  predicate OrAfterLastRule(kinds: seq<LineKind>, k: int) {
    && 0 <= k < |kinds| && kinds[k] == OrMarker
    && forall m :: k < m < |kinds| ==> !kinds[m].RuleLine?
  }

  /** An `OR` is pending exactly when some `OR` line occurs after the last rule line. */
  lemma {:induction false} PendingMeansOrSinceLastRule(kinds: seq<LineKind>)
    ensures Pending(kinds) <==> exists k :: OrAfterLastRule(kinds, k)
    decreases |kinds|
  {
    if kinds != [] {
      var prev := kinds[..|kinds| - 1];
      var last := |kinds| - 1;
      PendingMeansOrSinceLastRule(prev);
      assert forall k :: 0 <= k < |prev| ==> prev[k] == kinds[k];
      if kinds[last] == OrMarker {
        assert OrAfterLastRule(kinds, last);
      } else if kinds[last].RuleLine? {
        forall k | 0 <= k < |kinds| ensures !OrAfterLastRule(kinds, k) {
          assert k < last ==> kinds[last].RuleLine?;
        }
      } else {
        forall k | 0 <= k < last ensures OrAfterLastRule(kinds, k) <==> OrAfterLastRule(prev, k) {
        }
        assert !OrAfterLastRule(kinds, last);
      }
    }
  }

  /** Lines before position `i` contribute a prefix of the rule lines. */
  lemma {:induction false} EventsPrefix(kinds: seq<LineKind>, i: nat)
    requires i <= |kinds|
    ensures |Events(kinds[..i])| <= |Events(kinds)|
    ensures Events(kinds[..i]) == Events(kinds)[..|Events(kinds[..i])|]
    decreases |kinds|
  {
    if i == |kinds| {
      assert kinds[..i] == kinds;
    } else {
      var prev := kinds[..|kinds| - 1];
      EventsPrefix(prev, i);
      assert prev[..i] == kinds[..i];
    }
  }

  /** One more line: a rule line adds one event, which records the pending flag; the
      flag is set by `OR`, cleared by a rule line and kept by anything else. */
  lemma EventsSnoc(pre: seq<LineKind>, k: LineKind)
    ensures Events(pre + [k]) == Events(pre) + (if k.RuleLine? then [Event(k.indent, k.name, k.description, Pending(pre))] else [])
    ensures Pending(pre + [k]) == (k == OrMarker || (!k.RuleLine? && Pending(pre)))
  {
    assert (pre + [k])[..|pre|] == pre;
    assert (pre + [k])[|pre|] == k;
  }

  /** Reading line `i` of a scan that has met `n` rule lines so far: a rule line is
      rule line `n`, with the pending flag as it stood. */
  lemma ScanStep(kinds: seq<LineKind>, i: nat, n: nat)
    requires i < |kinds| && n <= |Events(kinds)| && Events(kinds[..i]) == Events(kinds)[..n]
    ensures kinds[i].RuleLine? ==>
      && n < |Events(kinds)|
      && Events(kinds)[n] == Event(kinds[i].indent, kinds[i].name, kinds[i].description, Pending(kinds[..i]))
      && Events(kinds[..i + 1]) == Events(kinds)[..n + 1]
    ensures !kinds[i].RuleLine? ==> Events(kinds[..i + 1]) == Events(kinds)[..n]
    ensures Pending(kinds[..i + 1]) == (kinds[i] == OrMarker || (!kinds[i].RuleLine? && Pending(kinds[..i])))
  {
    var ev, pre := Events(kinds), kinds[..i];
    assert kinds[..i + 1] == pre + [kinds[i]];
    EventsSnoc(pre, kinds[i]);
    EventsPrefix(kinds, i + 1);
    var post := Events(kinds[..i + 1]);
    if kinds[i].RuleLine? {
      var e := Event(kinds[i].indent, kinds[i].name, kinds[i].description, Pending(pre));
      assert post == ev[..n] + [e];
      assert post == ev[..n + 1];
      assert ev[..n + 1][n] == e;
    } else {
      assert post == ev[..n];
    }
  }

  /** Lines that hold no rule line, at the end of a document, change nothing: in
      particular an `OR` with no rule line after it has no effect. */
  lemma {:induction false} TrailingNonRuleLines(kinds: seq<LineKind>, tail: seq<LineKind>)
    requires forall m :: 0 <= m < |tail| ==> !tail[m].RuleLine?
    ensures Events(kinds + tail) == Events(kinds)
    decreases |tail|
  {
    if tail == [] {
      assert kinds + tail == kinds;
    } else {
      var init := tail[..|tail| - 1];
      assert (kinds + tail)[..|kinds + tail| - 1] == kinds + init;
      assert (kinds + tail)[|kinds + tail| - 1] == tail[|tail| - 1];
      TrailingNonRuleLines(kinds, init);
    }
  }

  /** The positions of the rule lines. */
  function RuleLinePositions(kinds: seq<LineKind>): set<int> {
    set k | 0 <= k < |kinds| && kinds[k].RuleLine?
  }

  lemma RuleLinePositionsStep(kinds: seq<LineKind>)
    requires kinds != []
    ensures var prev, last := kinds[..|kinds| - 1], |kinds| - 1;
      RuleLinePositions(kinds) == RuleLinePositions(prev) + (if kinds[last].RuleLine? then {last} else {})
  {
    var prev := kinds[..|kinds| - 1];
    assert forall k :: 0 <= k < |prev| ==> prev[k] == kinds[k];
  }

  /** There is one event per rule line. */
  lemma {:induction false} EventCount(kinds: seq<LineKind>)
    ensures |Events(kinds)| == |RuleLinePositions(kinds)|
    decreases |kinds|
  {
    if kinds != [] {
      var prev := kinds[..|kinds| - 1];
      var last := |kinds| - 1;
      EventCount(prev);
      RuleLinePositionsStep(kinds);
      assert last !in RuleLinePositions(prev);
    }
  }

  // ---------------------------------------------------------------------------
  // Parents and depths, from the indents of the rule lines

  /** The last position before `k` whose indent is below `x`, or -1 when there is none. */
  function Nearest(ind: seq<nat>, x: nat, k: nat): (r: int)
    requires k <= |ind|
    ensures -1 <= r < k
    ensures r >= 0 ==> ind[r] < x
    ensures forall i :: r < i < k ==> ind[i] >= x
  {
    if k == 0 then -1 else if ind[k - 1] < x then k - 1 else Nearest(ind, x, k - 1)
  }

  /** The three properties of `Nearest` determine it. */
  lemma NearestUnique(ind: seq<nat>, x: nat, k: nat, r: int)
    requires k <= |ind| && -1 <= r < k
    requires r >= 0 ==> ind[r] < x
    requires forall i :: r < i < k ==> ind[i] >= x
    ensures Nearest(ind, x, k) == r
  {
  }

  /** The rule line that a rule line is placed under: the closest earlier one with a
      strictly smaller indent, or -1 for a root. */
  function Parent(ind: seq<nat>, j: nat): int
    requires j < |ind|
  {
    Nearest(ind, ind[j], j)
  }

  /** The number of ancestors of the node of rule line `j`. */
  function Depth(ind: seq<nat>, j: nat): nat
    requires j < |ind|
    decreases j
  {
    var p := Parent(ind, j);
    if p < 0 then 0 else Depth(ind, p) + 1
  }

  /** The indents of a rule line and its ancestors, outermost first: the parser's
      stack just after that line. */
  function Chain(ind: seq<nat>, t: int): (c: seq<nat>)
    requires -1 <= t < |ind|
    ensures |c| == if t < 0 then 0 else Depth(ind, t) + 1
    decreases t + 1
  {
    if t < 0 then [] else Chain(ind, Parent(ind, t)) + [ind[t]]
  }

  /** A later line all of whose predecessors back to `a` are indented deeper than `a`
      lies deeper than `a`. */
  lemma {:induction false} DepthAbove(ind: seq<nat>, a: nat, k: nat)
    requires a < k < |ind|
    requires forall i :: a < i <= k ==> ind[i] > ind[a]
    ensures Depth(ind, k) > Depth(ind, a)
    decreases k
  {
    var p := Parent(ind, k);
    assert p >= a by {
      assert ind[a] < ind[k];
    }
    if p > a {
      DepthAbove(ind, a, p);
    }
  }

  /** Depths go up by at most one from one rule line to the next. */
  lemma DepthStep(ind: seq<nat>, j: nat)
    requires 0 < j < |ind|
    ensures Depth(ind, j) <= Depth(ind, j - 1) + 1
  {
    var p := Parent(ind, j);
    if 0 <= p < j - 1 {
      DepthAbove(ind, p, j - 1);
    }
  }

  /** Strict-descendant rule: a rule line's parent has a strictly smaller indent and is
      the closest earlier line one level up, with nothing shallower in between (so in
      pre-order it is the node's parent in the forest); with no parent the line is a root. */
  lemma ParentIsTreeParent(ind: seq<nat>, j: nat)
    requires j < |ind|
    ensures Parent(ind, j) < 0 ==> Depth(ind, j) == 0
    ensures Parent(ind, j) >= 0 ==>
      && ind[Parent(ind, j)] < ind[j]
      && Depth(ind, j) == Depth(ind, Parent(ind, j)) + 1
      && forall i :: Parent(ind, j) < i < j ==> Depth(ind, i) >= Depth(ind, j)
  {
    var p := Parent(ind, j);
    if p >= 0 {
      forall i | p < i < j ensures Depth(ind, i) >= Depth(ind, j) {
        DepthAbove(ind, p, i);
      }
    }
  }

  /** Two consecutive rule lines with the same indent are siblings. */
  lemma EqualIndentSiblings(ind: seq<nat>, j: nat)
    requires j + 1 < |ind| && ind[j + 1] == ind[j]
    ensures Parent(ind, j + 1) == Parent(ind, j)
    ensures Depth(ind, j + 1) == Depth(ind, j)
  {
    NearestUnique(ind, ind[j + 1], j + 1, Parent(ind, j));
  }

  /** A rule line indented no deeper than every earlier one is a root. */
  lemma ShallowestIsRoot(ind: seq<nat>, j: nat)
    requires j < |ind|
    requires forall i :: 0 <= i < j ==> ind[j] <= ind[i]
    ensures Parent(ind, j) == -1 && Depth(ind, j) == 0
  {
  }

  // ---------------------------------------------------------------------------
  // The forest the rule lines describe

  /** A node without children, with its depth: one element of a pre-order listing. */
  datatype Entry = Entry(node: Rule, depth: nat)

  function Indents(ev: seq<Event>): (ind: seq<nat>)
    ensures |ind| == |ev| && forall k :: 0 <= k < |ev| ==> ind[k] == ev[k].indent
  {
    seq(|ev|, k requires 0 <= k < |ev| => ev[k].indent)
  }

  /** The node rule line `j` should become: id `Rule-<j+1>`, the line's name and
      description, and an `isOr` flag that is set when an `OR` was pending and the
      node is not the first in its list (its parent is not the line just before). */
  function EntryOf(ev: seq<Event>, j: nat): Entry
    requires j < |ev|
  {
    var ind := Indents(ev);
    var isOr := ev[j].orPending && j > 0 && Parent(ind, j) != j - 1;
    Entry(Rule(RuleLabel(j + 1), ev[j].name, ev[j].description, [], isOr), Depth(ind, j))
  }

  /** The pre-order listing, with depths, that the first `n` rule lines must give. */
  function Expected(ev: seq<Event>, n: nat): (es: seq<Entry>)
    requires n <= |ev|
    ensures |es| == n
  {
    if n == 0 then [] else Expected(ev, n - 1) + [EntryOf(ev, n - 1)]
  }

  lemma {:induction false} ExpectedAt(ev: seq<Event>, n: nat, j: nat)
    requires j < n <= |ev|
    ensures Expected(ev, n)[j] == EntryOf(ev, j)
    decreases n
  {
    if j < n - 1 {
      ExpectedAt(ev, n - 1, j);
    }
  }

  /** The number of nodes on the rightmost path. */
  function SpineLen(f: seq<Rule>): nat {
    if f == [] then 0 else 1 + SpineLen(f[|f| - 1].children)
  }

  /** The list at depth `d` of the rightmost path (the root list at depth 0): where a
      node whose parent is the open node at depth `d - 1` goes. It is empty exactly
      when the path is only `d` long. */
  function ListAtDepth(f: seq<Rule>, d: nat): (l: seq<Rule>)
    requires d <= SpineLen(f)
    ensures l != [] <==> d < SpineLen(f)
    decreases d
  {
    if d == 0 then f else ListAtDepth(f[|f| - 1].children, d - 1)
  }

  /** `node` appended to the list at depth `d` of the rightmost path, which makes it
      the end of the new rightmost path. */
  function AppendAtDepth(f: seq<Rule>, d: nat, node: Rule): (r: seq<Rule>)
    requires d <= SpineLen(f)
    ensures SpineLen(r) == d + 1 + SpineLen(node.children)
    decreases d
  {
    if d == 0 then
      assert (f + [node])[|f|] == node;
      f + [node]
    else
      var last := f[|f| - 1];
      var r := f[..|f| - 1] + [last.(children := AppendAtDepth(last.children, d - 1, node))];
      assert r[|r| - 1] == last.(children := AppendAtDepth(last.children, d - 1, node));
      r
  }

  /** The forest made of the first `n` rule lines: each one is appended, at its depth,
      to the rightmost path of the forest made of the lines before it. */
  function Build(ev: seq<Event>, n: nat): (f: seq<Rule>)
    requires n <= |ev|
    ensures SpineLen(f) == if n == 0 then 0 else Depth(Indents(ev), n - 1) + 1
  {
    if n == 0 then []
    else
      var ind := Indents(ev);
      assert Depth(ind, n - 1) <= SpineLen(Build(ev, n - 1)) by {
        if n > 1 { DepthStep(ind, n - 1); }
      }
      AppendAtDepth(Build(ev, n - 1), Depth(ind, n - 1), EntryOf(ev, n - 1).node)
  }

  /** `Build` one step at a time. */
  lemma BuildUnfold(ev: seq<Event>, n: nat)
    requires 0 < n <= |ev|
    ensures Depth(Indents(ev), n - 1) <= SpineLen(Build(ev, n - 1))
    ensures Build(ev, n) == AppendAtDepth(Build(ev, n - 1), Depth(Indents(ev), n - 1), EntryOf(ev, n - 1).node)
  {
    if n > 1 { DepthStep(Indents(ev), n - 1); }
  }

  /** Where rule line `n` goes already holds a node exactly when the line's parent is
      not the line just before it. */
  lemma BuildStep(ev: seq<Event>, n: nat)
    requires n < |ev|
    ensures Depth(Indents(ev), n) <= SpineLen(Build(ev, n))
    ensures ListAtDepth(Build(ev, n), Depth(Indents(ev), n)) != [] <==> n > 0 && Parent(Indents(ev), n) != n - 1
  {
    var ind := Indents(ev);
    var p := Parent(ind, n);
    if n > 0 {
      DepthStep(ind, n);
      if 0 <= p < n - 1 {
        DepthAbove(ind, p, n - 1);
      }
    }
  }

  /** Every node in pre-order, without its children, with its depth below `base`. */
  function Preorder(f: seq<Rule>, base: nat): (es: seq<Entry>)
    ensures |es| == Size(f)
  {
    if f == [] then []
    else [Entry(Strip(f[0]), base)] + Preorder(f[0].children, base + 1) + Preorder(f[1..], base)
  }

  lemma {:induction false} PreorderAppend(a: seq<Rule>, b: seq<Rule>, base: nat)
    ensures Preorder(a + b, base) == Preorder(a, base) + Preorder(b, base)
    decreases |a|
  {
    if a == [] {
      assert a + b == b;
    } else {
      assert (a + b)[0] == a[0] && (a + b)[1..] == a[1..] + b;
      PreorderAppend(a[1..], b, base);
    }
  }

  lemma PreorderSnoc(init: seq<Rule>, r: Rule, base: nat)
    ensures Preorder(init + [r], base) == Preorder(init, base) + [Entry(Strip(r), base)] + Preorder(r.children, base + 1)
  {
    var head, below := [Entry(Strip(r), base)], Preorder(r.children, base + 1);
    PreorderAppend(init, [r], base);
    assert [r][1..] == [];
    assert Preorder([r], base) == head + below;
    ConcatAssoc(Preorder(init, base), head, below);
  }

  /** One step of `PreorderAppendAtDepth` below the root list, given the result for
      the children of the last root. */
  lemma PreorderAppendBelow(f: seq<Rule>, d: nat, node: Rule, base: nat)
    requires 0 < d <= SpineLen(f)
    requires Preorder(AppendAtDepth(f[|f| - 1].children, d - 1, node), base + 1)
      == Preorder(f[|f| - 1].children, base + 1) + [Entry(node, base + d)]
    ensures Preorder(AppendAtDepth(f, d, node), base) == Preorder(f, base) + [Entry(node, base + d)]
  {
    var init, last := f[..|f| - 1], f[|f| - 1];
    var inner := AppendAtDepth(last.children, d - 1, node);
    var last' := last.(children := inner);
    assert AppendAtDepth(f, d, node) == init + [last'];
    assert f == init + [last];
    var pe := Preorder(init, base) + [Entry(Strip(last), base)];
    assert Strip(last') == Strip(last);
    PreorderSnoc(init, last', base);
    PreorderSnoc(init, last, base);
    ConcatAssoc(pe, Preorder(last.children, base + 1), [Entry(node, base + d)]);
  }

  /** Appending on the rightmost path appends one entry to the pre-order. */
  lemma {:induction false} PreorderAppendAtDepth(f: seq<Rule>, d: nat, node: Rule, base: nat)
    requires d <= SpineLen(f) && node.children == []
    ensures Preorder(AppendAtDepth(f, d, node), base) == Preorder(f, base) + [Entry(node, base + d)]
    decreases d
  {
    if d == 0 {
      PreorderSnoc(f, node, base);
      assert Strip(node) == node;
    } else {
      PreorderAppendAtDepth(f[|f| - 1].children, d - 1, node, base + 1);
      PreorderAppendBelow(f, d, node, base);
    }
  }

  lemma PreorderStep(f: seq<Rule>, g: seq<Rule>, d: nat, e: Entry, pre: seq<Entry>)
    requires d <= SpineLen(f) && g == AppendAtDepth(f, d, e.node)
    requires e.node.children == [] && e.depth == d && Preorder(f, 0) == pre
    ensures Preorder(g, 0) == pre + [e]
  {
    PreorderAppendAtDepth(f, d, e.node, 0);
  }

  /** The forest of the first `n` rule lines lists, in pre-order, exactly the first `n`
      expected entries. */
  lemma {:induction false} PreorderBuild(ev: seq<Event>, n: nat)
    requires n <= |ev|
    ensures Preorder(Build(ev, n), 0) == Expected(ev, n)
  {
    if n > 0 {
      PreorderBuild(ev, n - 1);
      BuildUnfold(ev, n);
      PreorderStep(Build(ev, n - 1), Build(ev, n), Depth(Indents(ev), n - 1), EntryOf(ev, n - 1), Expected(ev, n - 1));
    }
  }

  /** The first node of the root list and of every children list is not an alternative. */
  predicate FirstNotOr(f: seq<Rule>) {
    && (f != [] ==> !f[0].isOr)
    && forall k :: 0 <= k < |f| ==> FirstNotOr(f[k].children)
  }

  lemma {:induction false} AppendKeepsFirstNotOr(f: seq<Rule>, d: nat, node: Rule)
    requires d <= SpineLen(f) && FirstNotOr(f) && node.children == []
    requires node.isOr ==> d < SpineLen(f)
    ensures FirstNotOr(AppendAtDepth(f, d, node))
    decreases d
  {
    var r := AppendAtDepth(f, d, node);
    if d == 0 {
      assert forall k :: 0 <= k < |r| ==> r[k] == if k < |f| then f[k] else node;
    } else {
      var last := f[|f| - 1];
      AppendKeepsFirstNotOr(last.children, d - 1, node);
      assert forall k :: 0 <= k < |f| - 1 ==> r[k] == f[k];
    }
  }

  /** An alternative is only ever appended to a list that already has a node. */
  lemma {:induction false} BuildFirstNotOr(ev: seq<Event>, n: nat)
    requires n <= |ev|
    ensures FirstNotOr(Build(ev, n))
  {
    if n > 0 {
      BuildFirstNotOr(ev, n - 1);
      BuildStep(ev, n - 1);
      AppendKeepsFirstNotOr(Build(ev, n - 1), Depth(Indents(ev), n - 1), EntryOf(ev, n - 1).node);
    }
  }

  // ---------------------------------------------------------------------------
  // The parser

  /** The module-level id counter of the source: every call of `NextRuleId` hands out
      `Rule-<next>` and advances it. */
  class RuleCounter {
    var next: nat

    constructor ()
      ensures next == 1
    {
      next := 1;
    }

    method NextRuleId() returns (id: string)
      modifies this
      ensures id == RuleLabel(old(next)) && next == old(next) + 1
    {
      id := RuleLabel(next);
      next := next + 1;
    }
  }

  /** The rule lines of a document, after normalisation. */
  function DocumentEvents(content: string): seq<Event> {
    Events(Kinds(NormalizeLines(content)))
  }

  /** The forest the parser returns for `content`. */
  function ParseResult(content: string): seq<Rule> {
    Build(DocumentEvents(content), |DocumentEvents(content)|)
  }

  /** The stack after popping every entry indented at least as deep as rule line `n`:
      the chain of its parent. */
  method PopDeeper(stack0: seq<nat>, indent: nat, ghost ind: seq<nat>, ghost n: nat) returns (stack: seq<nat>)
    requires n < |ind| && ind[n] == indent && stack0 == Chain(ind, n - 1)
    ensures stack == Chain(ind, Parent(ind, n))
  {
    stack := stack0;
    ghost var t: int := n - 1;
    while |stack| > 0 && stack[|stack| - 1] >= indent
      invariant -1 <= t < n
      invariant stack == Chain(ind, t)
      invariant forall k :: t < k < n ==> ind[k] >= indent
      decreases |stack|
    {
      assert t >= 0;
      assert stack == Chain(ind, Parent(ind, t)) + [ind[t]];
      stack := stack[..|stack| - 1];
      t := Parent(ind, t);
    }
    NearestUnique(ind, indent, n, t);
  }

  /** The forest of the first `n + 1` rule lines is the forest of the first `n` with
      rule line `n` appended at its depth, flagged as an alternative when an `OR` was
      pending and its list already has a node. */
  lemma BuildNext(ev: seq<Event>, n: nat)
    requires n < |ev|
    ensures Depth(Indents(ev), n) <= SpineLen(Build(ev, n))
    ensures Build(ev, n + 1) == AppendAtDepth(Build(ev, n), Depth(Indents(ev), n),
      Rule(RuleLabel(n + 1), ev[n].name, ev[n].description, [],
        ev[n].orPending && |ListAtDepth(Build(ev, n), Depth(Indents(ev), n))| > 0))
  {
    BuildStep(ev, n);
  }

  /** One rule line: a fresh id, the stack popped down to the line's parent, the node
      appended to its parent's children (or to the roots) and pushed on the stack. */
  method PlaceRuleLine(counter: RuleCounter, rules0: seq<Rule>, stack0: seq<nat>, orPending: bool,
                       indent: nat, name: string, description: string, ghost ev: seq<Event>, ghost n: nat)
    returns (rules: seq<Rule>, stack: seq<nat>)
    modifies counter
    requires n < |ev| && ev[n] == Event(indent, name, description, orPending)
    requires counter.next == n + 1 && rules0 == Build(ev, n) && stack0 == Chain(Indents(ev), n - 1)
    ensures counter.next == n + 2 && rules == Build(ev, n + 1) && stack == Chain(Indents(ev), n)
  {
    ghost var ind := Indents(ev);
    var id := counter.NextRuleId();
    stack := PopDeeper(stack0, indent, ind, n);
    BuildNext(ev, n);
    var depth := |stack|;
    assert depth == Depth(ind, n);
    var destination := ListAtDepth(rules0, depth);
    var rule := Rule(id, name, description, [], orPending && |destination| > 0);
    rules := AppendAtDepth(rules0, depth, rule);
    stack := stack + [indent];
  }

  /** The state of the scan after the lines of kinds `kinds[..i]`, which held the
      first `n` rule lines: the counter, the forest so far, the stack of open
      indents and the pending flag. */
  ghost predicate Scanned(kinds: seq<LineKind>, i: nat, n: nat, next: nat, rules: seq<Rule>, stack: seq<nat>, orPending: bool)
    requires i <= |kinds|
  {
    var ev := Events(kinds);
    && n <= |ev| && Events(kinds[..i]) == ev[..n]
    && orPending == Pending(kinds[..i])
    && next == n + 1
    && rules == Build(ev, n)
    && stack == Chain(Indents(ev), n - 1)
  }

  /** One turn of the loop, on a line of kind `kinds[i]`: `OR` sets the pending
      flag, a rule line is placed, anything else is skipped. */
  method ScanLine(counter: RuleCounter, kind: LineKind, rules0: seq<Rule>, stack0: seq<nat>, orPending0: bool,
                  ghost kinds: seq<LineKind>, ghost i: nat, ghost n0: nat)
    returns (rules: seq<Rule>, stack: seq<nat>, orPending: bool, ghost n: nat)
    modifies counter
    requires i < |kinds| && kind == kinds[i]
    requires Scanned(kinds, i, n0, counter.next, rules0, stack0, orPending0)
    ensures Scanned(kinds, i + 1, n, counter.next, rules, stack, orPending)
  {
    ScanStep(kinds, i, n0);
    rules, stack, orPending, n := rules0, stack0, orPending0, n0;
    match kind {
      case OrMarker =>
        orPending := true;
      case Other =>
      case RuleLine(indent, name, description) =>
        rules, stack := PlaceRuleLine(counter, rules, stack, orPending, indent, name, description, Events(kinds), n);
        orPending := false;
        n := n + 1;
    }
  }

  /** Parses the rule format. The counter is reset first, so the result does not
      depend on earlier calls; on return it stands one past the number of nodes. */
  method ParseMdcRules(counter: RuleCounter, content: string) returns (rules: seq<Rule>)
    modifies counter
    ensures rules == ParseResult(content)
    ensures counter.next == Size(rules) + 1
  {
    counter.next := 1;
    var lines := NormalizeLines(content);
    ghost var kinds := Kinds(lines);
    var stack: seq<nat> := [];
    rules := [];
    var orPending := false;
    ghost var n: nat := 0;
    var i := 0;
    assert kinds[..0] == [] && Events(kinds)[..0] == [];
    while i < |lines|
      invariant i <= |lines| == |kinds|
      invariant Scanned(kinds, i, n, counter.next, rules, stack, orPending)
    {
      var kind := Classify(lines[i]);
      KindsAt(lines, i);
      rules, stack, orPending, n := ScanLine(counter, kind, rules, stack, orPending, kinds, i, n);
      i := i + 1;
    }
    assert kinds[..|lines|] == kinds;
    PreorderBuild(Events(kinds), n);
  }

  // ---------------------------------------------------------------------------
  // What the parse promises

  /** A pre-order walk of the result meets one node per rule line, in the order of
      the lines: ids `Rule-1`, `Rule-2`, ..., the lines' names and descriptions, the
      depth that indentation gives, and `isOr` as the pending `OR` decides. */
  lemma ParseInLineOrder(content: string)
    ensures Preorder(ParseResult(content), 0) == Expected(DocumentEvents(content), |DocumentEvents(content)|)
  {
    var ev := DocumentEvents(content);
    PreorderBuild(ev, |ev|);
  }

  /** The result has as many nodes, at all depths together, as the document has rule
      lines; `OR` lines and other lines make none. */
  lemma ParseNodeCount(content: string)
    ensures Size(ParseResult(content)) == |RuleLinePositions(Kinds(NormalizeLines(content)))|
  {
    ParseInLineOrder(content);
    EventCount(Kinds(NormalizeLines(content)));
  }

  lemma {:induction false} IdsInPreorder(f: seq<Rule>, base: nat)
    ensures forall k :: 0 <= k < Size(f) ==> Ids(f)[k] == Preorder(f, base)[k].node.id
    decreases f
  {
    if f != [] {
      IdsInPreorder(f[0].children, base + 1);
      IdsInPreorder(f[1..], base);
    }
  }

  /** The ids of the result, in pre-order, are `Rule-1` to `Rule-N`. */
  lemma ParseIdsInOrder(content: string)
    ensures forall k :: 0 <= k < |Ids(ParseResult(content))| ==> Ids(ParseResult(content))[k] == RuleLabel(k + 1)
  {
    var f, ev := ParseResult(content), DocumentEvents(content);
    ParseInLineOrder(content);
    IdsInPreorder(f, 0);
    forall k | 0 <= k < |Ids(f)| ensures Ids(f)[k] == RuleLabel(k + 1) {
      ExpectedAt(ev, |ev|, k);
    }
  }

  /** No two nodes of the result share an id. */
  lemma ParseIdsDistinct(content: string)
    ensures DistinctIds(ParseResult(content))
  {
    var ids := Ids(ParseResult(content));
    ParseIdsInOrder(content);
    forall i, j | 0 <= i < j < |ids| ensures ids[i] != ids[j] {
      RuleLabelInjective(i + 1, j + 1);
    }
    NoRepeatsMultiset(ids);
  }

  /** No list of the result, the root list included, starts with an alternative. */
  lemma ParseFirstNotOr(content: string)
    ensures FirstNotOr(ParseResult(content))
  {
    var ev := DocumentEvents(content);
    BuildFirstNotOr(ev, |ev|);
  }

  lemma SurvivorsOfOr()
    ensures Survivors(["OR"]) == ["OR"]
  {
    var line: string := "OR";
    assert !IsSpace(line[1]);
    assert StripTrailing(line) == line;
    assert line[0] == 'O' && |line| == 2;
    assert !StartsWith(line, "#") && !StartsWith(line, "---");
    assert ["OR"][1..] == [];
  }

  /** A final `OR` line survives normalisation. */
  lemma NormalizeAppendOr(content: string)
    ensures NormalizeLines(content + "\nOR") == NormalizeLines(content) + ["OR"]
  {
    assert content + "\nOR" == content + "\n" + "OR";
    SplitLinesAppend(content, "OR");
    SurvivorsAppend(SplitLines(content), ["OR"]);
    SurvivorsOfOr();
  }

  /** An `OR` line at the end of a document has no effect. */
  lemma TrailingOrIgnored(content: string)
    ensures ParseResult(content + "\nOR") == ParseResult(content)
  {
    var lines := NormalizeLines(content);
    NormalizeAppendOr(content);
    KindsAppend(lines, ["OR"]);
    assert Kinds(["OR"]) == [OrMarker];
    TrailingNonRuleLines(Kinds(lines), [OrMarker]);
  }
}
