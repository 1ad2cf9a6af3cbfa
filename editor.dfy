/** The rule editor's actions on the forest it shows: the next free rule name, adding,
    deleting and re-describing nodes, nesting and un-nesting, and moving a node among
    its siblings. Each action is a function from the forest before to the forest after;
    `Editor` holds the forest as the component's state and applies them. */
module RuleEditor {
  import opened JsText
  import opened RuleModel
  import opened Forest

  // ---------------------------------------------------------------------------
  // The next rule name

  const RulePrefix: string := "Rule-"

  /** What `/Rule-(\d+)/` captures in `name` when the search starts at `from`: the
      leftmost `Rule-` followed by a digit, then the whole run of digits after it. The
      pattern is not anchored, so the match may start anywhere in the name. */
  function NumberFrom(name: string, from: nat): Option<nat>
    requires from <= |name|
    decreases |name| - from
  {
    if |name| - from <= |RulePrefix| then None
    else if MatchStart(name, from) then Some(Captured(name, from + |RulePrefix|))
    else NumberFrom(name, from + 1)
  }

  /** `Rule-` followed by a digit begins at position `k`: where `/Rule-(\d+)/` can match. */
  predicate MatchStart(name: string, k: nat) {
    k + |RulePrefix| < |name| && name[k..k + |RulePrefix|] == RulePrefix && IsDigit(name[k + |RulePrefix|])
  }

  /** The value of the run of digits starting at `start`. */
  function Captured(name: string, start: nat): nat
    requires start <= |name|
  {
    DigitRunDigits(name, start);
    DigitsValue(name[start..start + DigitRun(name, start)])
  }

  /** `parseInt(match[1], 10)` when the name matches, nothing otherwise. */
  function RuleNumber(name: string): Option<nat> {
    NumberFrom(name, 0)
  }

  /** What a node adds to the running maximum, which starts at 0. */
  function NumberOf(r: Rule): nat {
    match RuleNumber(r.name)
    case Some(n) => n
    case None => 0
  }

  function Max(a: nat, b: nat): nat {
    if a < b then b else a
  }

  /** The largest element, 0 for none. */
  function MaxOf(s: seq<nat>): nat
    decreases |s|
  {
    if s == [] then 0 else Max(MaxOf(s[..|s| - 1]), s[|s| - 1])
  }

  /** The rule number of every node, in pre-order (0 for a name without one). */
  function Numbers(f: seq<Rule>): seq<nat> {
    Collect(f, NumberOf)
  }

  /** The search from `from` finds the first place a match can begin there. */
  lemma {:induction false} NumberFromFirst(name: string, from: nat, k: nat)
    requires from <= k && MatchStart(name, k)
    requires forall j :: from <= j < k ==> !MatchStart(name, j)
    ensures NumberFrom(name, from) == Some(Captured(name, k + |RulePrefix|))
    decreases k - from
  {
    if from < k {
      NumberFromFirst(name, from + 1, k);
    }
  }

  /** The search from `from` finds nothing when no match begins there or later. */
  lemma {:induction false} NumberFromNone(name: string, from: nat)
    requires from <= |name|
    requires forall j :: from <= j < |name| ==> !MatchStart(name, j)
    ensures NumberFrom(name, from) == None
    decreases |name| - from
  {
    if |name| - from > |RulePrefix| {
      NumberFromNone(name, from + 1);
    }
  }

  /** A result of the search from `from` comes from the first place a match begins. */
  lemma {:induction false} NumberFromFound(name: string, from: nat) returns (k: nat)
    requires from <= |name| && NumberFrom(name, from).Some?
    ensures from <= k && MatchStart(name, k) && forall j :: from <= j < k ==> !MatchStart(name, j)
    ensures NumberFrom(name, from) == Some(Captured(name, k + |RulePrefix|))
    decreases |name| - from
  {
    if MatchStart(name, from) {
      k := from;
    } else {
      k := NumberFromFound(name, from + 1);
    }
  }

  /** `name` is `u`, then `Rule-`, then the digits `d` that the match captures (the
      run ends where `v` begins), with value `n`; and no match begins inside `u`. */
  predicate NumberShape(name: string, u: string, d: string, v: string, n: nat) {
    && name == u + RulePrefix + d + v
    && d != [] && AllDigits(d) && (v == [] || !IsDigit(v[0]))
    && DigitsValue(d) == n
    && forall j :: 0 <= j < |u| ==> !MatchStart(name, j)
  }

  /** A name of that shape has rule number `n`. */
  lemma RuleNumberComplete(name: string, u: string, d: string, v: string, n: nat)
    requires NumberShape(name, u, d, v, n)
    ensures RuleNumber(name) == Some(n)
  {
    var start := |u| + |RulePrefix|;
    assert name[|u|..start] == RulePrefix && name[start] == d[0];
    assert forall k :: 0 <= k < |d| ==> name[start + k] == d[k];
    CapturedRun(name, start, d, v);
    NumberFromFirst(name, 0, |u|);
  }

  /** The digit run from `start` is exactly `d` when `v` follows it. */
  lemma CapturedRun(name: string, start: nat, d: string, v: string)
    requires start + |d| + |v| == |name| && name[start..] == d + v
    requires AllDigits(d) && (v == [] || !IsDigit(v[0]))
    ensures Captured(name, start) == DigitsValue(d)
  {
    var n := DigitRun(name, start);
    assert forall k :: 0 <= k < |d| ==> name[start + k] == d[k];
    assert forall k :: start <= k < start + |d| ==> IsDigit(name[k]);
    assert start + |d| == |name| || !IsDigit(name[start + |d|]);
    assert name[start..start + n] == d;
  }

  /** Every rule number comes from a name of that shape. */
  lemma RuleNumberSound(name: string)
    requires RuleNumber(name).Some?
    ensures exists u, d, v :: NumberShape(name, u, d, v, RuleNumber(name).value)
  {
    var k := NumberFromFound(name, 0);
    var start := k + |RulePrefix|;
    var e := start + DigitRun(name, start);
    DigitRunDigits(name, start);
    var u, d, v := name[..k], name[start..e], name[e..];
    assert name == u + RulePrefix + d + v by {
      assert name[k..start] == RulePrefix;
      assert name == name[..k] + name[k..start] + name[start..e] + name[e..];
    }
    assert NumberShape(name, u, d, v, RuleNumber(name).value);
  }

  /** A name has no rule number exactly when no match begins anywhere in it. */
  lemma RuleNumberNone(name: string)
    ensures RuleNumber(name) == None <==> forall j :: 0 <= j < |name| ==> !MatchStart(name, j)
  {
    if forall j :: 0 <= j < |name| ==> !MatchStart(name, j) {
      NumberFromNone(name, 0);
    } else {
      var j :| 0 <= j < |name| && MatchStart(name, j);
      if RuleNumber(name) == None {
        FirstMatchStart(name, j);
      }
    }
  }

  /** Where a match begins somewhere, the search finds one. */
  lemma FirstMatchStart(name: string, j: nat)
    requires j < |name| && MatchStart(name, j)
    ensures RuleNumber(name).Some?
    decreases j
  {
    if forall i :: 0 <= i < j ==> !MatchStart(name, i) {
      NumberFromFirst(name, 0, j);
    } else {
      var i :| 0 <= i < j && MatchStart(name, i);
      FirstMatchStart(name, i);
    }
  }

  /** The largest rule number at any depth, 0 when no name has one. */
  function MaxNumber(f: seq<Rule>): nat {
    MaxOf(Numbers(f))
  }

  /** The name `getNextRuleName` gives: its number is one past the largest rule number
      of the forest, so no node has that name yet. */
  function NextRuleName(f: seq<Rule>): (name: string)
    ensures RuleNumber(name) == Some(MaxNumber(f) + 1)
    ensures name !in Collect(f, NameOf)
  {
    RuleNumberOfLabel(MaxNumber(f) + 1);
    NextNameNotIn(f, RuleLabel(MaxNumber(f) + 1), MaxNumber(f) + 1);
    RuleLabel(MaxNumber(f) + 1)
  }

  lemma {:induction false} MaxOfAppend(a: seq<nat>, b: seq<nat>)
    ensures MaxOf(a + b) == Max(MaxOf(a), MaxOf(b))
    decreases |b|
  {
    if b == [] {
      assert a + b == a;
    } else {
      var c := b[..|b| - 1];
      MaxOfAppend(a, c);
      assert (a + b)[..|a + b| - 1] == a + c;
    }
  }

  /** The maximum bounds every element and is one of them (or 0). */
  lemma {:induction false} MaxOfSpec(s: seq<nat>)
    ensures forall n :: n in s ==> n <= MaxOf(s)
    ensures MaxOf(s) == 0 || MaxOf(s) in s
    decreases |s|
  {
    if s != [] {
      MaxOfSpec(s[..|s| - 1]);
      assert s == s[..|s| - 1] + [s[|s| - 1]];
    }
  }

  /** The rule numbers of one root and its subtree. */
  lemma CollectOne(r: Rule)
    ensures Numbers([r]) == [NumberOf(r)] + Numbers(r.children)
  {
    assert [r][1..] == [];
    assert NumberOf(Strip(r)) == NumberOf(r);
  }

  /** The maximum of the roots `r[..i + 1]` is that of `r[..i]` taken with the `i`-th
      root's number and its subtree's maximum. */
  lemma MaxNumberStep(r: seq<Rule>, i: nat)
    requires i < |r|
    ensures MaxNumber(r[..i + 1]) == Max(Max(MaxNumber(r[..i]), NumberOf(r[i])), MaxNumber(r[i].children))
  {
    var x := NumberOf(r[i]);
    var a, b := Numbers(r[..i]), Numbers(r[i].children);
    assert r[..i + 1] == r[..i] + [r[i]];
    CollectAppend(r[..i], [r[i]], NumberOf);
    CollectOne(r[i]);
    assert Numbers(r[..i + 1]) == a + ([x] + b);
    MaxOfAppend(a, [x] + b);
    MaxOfAppend([x], b);
    assert MaxOf([x]) == x by {
      assert [x][..0] == [];
    }
  }

  /** The `traverse` closure: `max` is the variable it updates, passed in and out. */
  method Traverse(r: seq<Rule>, max0: nat) returns (max: nat)
    ensures max == Max(max0, MaxNumber(r))
    decreases r
  {
    max := max0;
    for i := 0 to |r|
      invariant max == Max(max0, MaxNumber(r[..i]))
    {
      var m := RuleNumber(r[i].name);
      if m.Some? {
        max := Max(max, m.value);
      }
      max := Traverse(r[i].children, max);
      MaxNumberStep(r, i);
    }
    assert r[..|r|] == r;
  }

  /** `getNextRuleName`: one more than the largest rule number in any name. */
  method GetNextRuleName(rules: seq<Rule>) returns (name: string)
    ensures name == NextRuleName(rules)
  {
    var max := Traverse(rules, 0);
    name := RulePrefix + NatToString(max + 1);
  }

  /** A generated name reads back as its number. */
  lemma RuleNumberOfLabel(n: nat)
    ensures RuleNumber(RuleLabel(n)) == Some(n)
  {
    var s := RuleLabel(n);
    var digits := NatToString(n);
    assert s[0..5] == RulePrefix && s[5] == digits[0];
    assert DigitRun(s, 5) == |digits| by {
      assert forall k :: 5 <= k < |s| ==> s[k] == digits[k - 5];
    }
    assert s[5..5 + |digits|] == digits;
    DigitsValueOfNatToString(n);
  }

  /** The next name's number is the largest rule number of the forest plus one, so
      it exceeds every one of them. */
  lemma NextNumberExceeds(f: seq<Rule>)
    ensures forall n :: n in Numbers(f) ==> n < MaxNumber(f) + 1
    ensures MaxNumber(f) == 0 || MaxNumber(f) in Numbers(f)
  {
    MaxOfSpec(Numbers(f));
  }

  function NameOf(r: Rule): string { r.name }

  /** A name whose number exceeds every rule number of a forest is not in it. */
  lemma {:induction false} NextNameNotIn(f: seq<Rule>, name: string, n: nat)
    requires RuleNumber(name) == Some(n) && MaxNumber(f) < n
    ensures name !in Collect(f, NameOf)
    decreases f
  {
    if f != [] {
      var x := NumberOf(Strip(f[0]));
      var a, b := Numbers(f[0].children), Numbers(f[1..]);
      assert Numbers(f) == ([x] + a) + b;
      MaxOfAppend([x] + a, b);
      MaxOfAppend([x], a);
      assert MaxOf([x]) == x by {
        assert [x][..0] == [];
      }
      NextNameNotIn(f[0].children, name, n);
      NextNameNotIn(f[1..], name, n);
    }
  }

  /** A nested `Rule-7` counts: the names Rule-1, Rule-7 and Rule-3 give Rule-8. */
  lemma NextNameExample()
    ensures NextRuleName([Rule("a", "Rule-1", "", [Rule("b", "Rule-7", "", [], false)], false), Rule("c", "Rule-3", "", [], false)]) == "Rule-8"
  {
    var b := Rule("b", "Rule-7", "", [], false);
    var a := Rule("a", "Rule-1", "", [b], false);
    var c := Rule("c", "Rule-3", "", [], false);
    assert RuleLabel(1) == "Rule-1" && RuleLabel(7) == "Rule-7" && RuleLabel(3) == "Rule-3" && RuleLabel(8) == "Rule-8";
    RuleNumberOfLabel(1);
    RuleNumberOfLabel(7);
    RuleNumberOfLabel(3);
    assert NumberOf(Strip(a)) == 1 && NumberOf(Strip(b)) == 7 && NumberOf(Strip(c)) == 3;
    assert Numbers([b]) == [7] by { assert [b][1..] == []; }
    assert Numbers([c]) == [3] by { assert [c][1..] == []; }
    assert Numbers([a, c]) == [1] + [7] + [3] by { assert [a, c][1..] == [c]; }
    assert MaxOf([1, 7, 3]) == 7 by {
      assert [1, 7, 3][..2] == [1, 7] && [1, 7][..1] == [1] && [1][..0] == [];
    }
    assert [1] + [7] + [3] == [1, 7, 3];
    assert MaxNumber([a, c]) == 7;
  }

  // ---------------------------------------------------------------------------
  // Lists of siblings

  /** `l` without its `i`-th element: `splice(i, 1)`. */
  function RemoveAt(l: seq<Rule>, i: nat): seq<Rule>
    requires i < |l|
  {
    l[..i] + l[i + 1..]
  }

  /** `l` with `x` inserted before position `i`: `splice(i, 0, x)`. */
  function InsertAt(l: seq<Rule>, i: nat, x: Rule): seq<Rule>
    requires i <= |l|
  {
    l[..i] + [x] + l[i..]
  }

  /** `l` with its `i`-th element moved to the end of the children of the one before it. */
  function NestInList(l: seq<Rule>, i: nat): seq<Rule>
    requires 0 < i < |l|
  {
    var prev := l[i - 1];
    l[..i - 1] + [prev.(children := prev.children + [l[i]])] + l[i + 1..]
  }

  /** `l` with the elements at `a` and `b` exchanged. */
  function Swap(l: seq<Rule>, a: nat, b: nat): (r: seq<Rule>)
    requires a < |l| && b < |l|
    ensures |r| == |l| && r[a] == l[b] && r[b] == l[a]
    ensures forall k :: 0 <= k < |l| && k != a && k != b ==> r[k] == l[k]
    ensures multiset(r) == multiset(l)
  {
    l[a := l[b]][b := l[a]]
  }

  /** Exchanging the same two elements twice gives the list back. */
  lemma SwapTwice(l: seq<Rule>, a: nat, b: nat)
    requires a < |l| && b < |l|
    ensures Swap(Swap(l, a, b), a, b) == l
  {
    var r := Swap(Swap(l, a, b), a, b);
    assert forall k :: 0 <= k < |l| ==> r[k] == l[k];
  }

  /** `Array.prototype.findIndex` by id: the first position holding the id, or -1. */
  function FindIndex(l: seq<Rule>, id: string): (k: int)
    ensures -1 <= k < |l|
    ensures k >= 0 ==> l[k].id == id
    ensures forall j :: 0 <= j < |l| && (k < 0 || j < k) ==> l[j].id != id
    decreases |l|
  {
    if l == [] then -1
    else if l[0].id == id then 0
    else
      var k := FindIndex(l[1..], id);
      if k < 0 then -1 else k + 1
  }

  // ---------------------------------------------------------------------------
  // The actions

  const NewDescription: string := "Description..."

  /** The node both add actions create. Its id is the name, a dash and the clock reading
      in milliseconds, which is passed in as `now`. */
  function NewRule(name: string, now: nat): (r: Rule)
    ensures r.name == name && r.description == NewDescription && r.children == [] && !r.isOr
    ensures name + "-" <= r.id
  {
    Rule(name + "-" + NatToString(now), name, NewDescription, [], false)
  }

  /** The 'add' action: a new node at the end of the children of every node with the id. */
  function AddChild(rules: seq<Rule>, ruleId: string, now: nat): (r: seq<Rule>)
    ensures |r| == |rules|
  {
    UpdateRules(rules, ruleId, AppendChild(NewRule(NextRuleName(rules), now)))
  }

  /** The updater of the 'add' action: the node with `child` after its children. */
  function AppendChild(child: Rule): Rule -> Rule {
    (r: Rule) => r.(children := r.children + [child])
  }

  /** The add-top-level button: a new node at the end of the root list. */
  function AddTopLevel(rules: seq<Rule>, now: nat): seq<Rule> {
    rules + [NewRule(NextRuleName(rules), now)]
  }

  /** `handleSaveDesc`: the saved text becomes the description of every node with the id. */
  function SaveDesc(rules: seq<Rule>, ruleId: string, desc: string): (r: seq<Rule>)
    ensures |r| == |rules|
  {
    UpdateRules(rules, ruleId, SetDescription(desc))
  }

  /** The updater of `handleSaveDesc`: the node with the saved text as its description. */
  function SetDescription(desc: string): Rule -> Rule {
    (r: Rule) => r.(description := desc)
  }

  /** The 'delete' action: the first node with the id leaves the list that holds it,
      with its subtree. */
  function Delete(rules: seq<Rule>, ruleId: string): seq<Rule> {
    LocateSpec(rules, ruleId);
    match Locate(rules, ruleId)
    case None => rules
    case Some(pl) => WithList(rules, pl.at, RemoveAt(ListAt(rules, pl.at), pl.index))
  }

  /** The 'nest' action: the first node with the id, unless it is first in its list,
      becomes the last child of the sibling before it. */
  function Nest(rules: seq<Rule>, ruleId: string): seq<Rule> {
    LocateSpec(rules, ruleId);
    match Locate(rules, ruleId)
    case None => rules
    case Some(pl) =>
      if pl.index > 0 then WithList(rules, pl.at, NestInList(ListAt(rules, pl.at), pl.index))
      else rules
  }

  /** `handleUnNest`: the first node with the id, unless it is at the top level, leaves
      its parent's children and is inserted after the first node of the parent's list
      that has the parent's id. */
  function UnNest(rules: seq<Rule>, ruleId: string): seq<Rule> {
    LocateSpec(rules, ruleId);
    match Locate(rules, ruleId)
    case None => rules
    case Some(pl) =>
      if pl.at == [] then rules
      else
        var q := pl.at;
        PathParent(rules, q);
        WithList(rules, q[..|q| - 1], UnNestInList(ListAt(rules, q[..|q| - 1]), q[|q| - 1], pl.index))
  }

  /** The list holding the parent, the `j`-th node, after its `i`-th child moved out:
      `parentIdx` is searched after the child left. */
  function UnNestInList(l: seq<Rule>, j: nat, i: nat): seq<Rule>
    requires j < |l| && i < |l[j].children|
  {
    var parent := l[j];
    var emptied := l[j := parent.(children := RemoveAt(parent.children, i))];
    InsertAt(emptied, FindIndex(emptied, parent.id) + 1, parent.children[i])
  }

  /** `moveRuleUp`: the first node with the id changes places with the sibling before it. */
  function MoveUp(rules: seq<Rule>, ruleId: string): seq<Rule> {
    LocateSpec(rules, ruleId);
    match Locate(rules, ruleId)
    case None => rules
    case Some(pl) =>
      if pl.index > 0 then WithList(rules, pl.at, Swap(ListAt(rules, pl.at), pl.index - 1, pl.index))
      else rules
  }

  /** `moveRuleDown`: the first node with the id changes places with the sibling after it. */
  function MoveDown(rules: seq<Rule>, ruleId: string): seq<Rule> {
    LocateSpec(rules, ruleId);
    match Locate(rules, ruleId)
    case None => rules
    case Some(pl) =>
      var siblings := ListAt(rules, pl.at);
      if pl.index < |siblings| - 1 then WithList(rules, pl.at, Swap(siblings, pl.index, pl.index + 1))
      else rules
  }

  // ---------------------------------------------------------------------------
  // Pre-order of edited lists

  lemma CollectSingle<T>(r: Rule, p: Rule -> T)
    ensures Collect([r], p) == [p(Strip(r))] + Collect(r.children, p)
  {
    assert [r][1..] == [];
  }

  lemma CollectReplace<T>(l: seq<Rule>, i: nat, n: Rule, p: Rule -> T)
    requires i < |l|
    ensures Collect(l[i := n], p) == Collect(l[..i], p) + [p(Strip(n))] + Collect(n.children, p) + Collect(l[i + 1..], p)
  {
    CollectAround(l[i := n], i, p);
    assert l[i := n][..i] == l[..i] && l[i := n][i + 1..] == l[i + 1..];
  }

  lemma CollectRemoveAt<T>(l: seq<Rule>, i: nat, p: Rule -> T)
    requires i < |l|
    ensures Collect(l, p) == Collect(l[..i], p) + Collect([l[i]], p) + Collect(l[i + 1..], p)
    ensures Collect(RemoveAt(l, i), p) == Collect(l[..i], p) + Collect(l[i + 1..], p)
  {
    CollectAround(l, i, p);
    CollectSingle(l[i], p);
    Assoc(Collect(l[..i], p), [p(Strip(l[i]))], Collect(l[i].children, p), Collect(l[i + 1..], p));
    CollectAppend(l[..i], l[i + 1..], p);
  }

  /** A list around two neighbours. */
  lemma Pieces<T>(l: seq<T>, i: nat)
    requires i + 1 < |l|
    ensures l == l[..i] + [l[i]] + [l[i + 1]] + l[i + 2..]
  {
  }

  lemma SwapPieces(l: seq<Rule>, i: nat)
    requires i + 1 < |l|
    ensures Swap(l, i, i + 1) == l[..i] + [l[i + 1]] + [l[i]] + l[i + 2..]
  {
  }

  lemma Assoc<T>(x: seq<T>, a: seq<T>, y: seq<T>, z: seq<T>)
    ensures x + a + y + z == x + (a + y) + z
  {
  }

  lemma CollectInsertAt<T>(l: seq<Rule>, i: nat, x: Rule, p: Rule -> T)
    requires i <= |l|
    ensures multiset(Collect(InsertAt(l, i, x), p)) == multiset(Collect(l, p)) + multiset(Collect([x], p))
  {
    CollectAppend(l[..i] + [x], l[i..], p);
    CollectAppend(l[..i], [x], p);
    CollectSplit(l, i, p);
  }

  /** Nesting inside one list keeps the list's pre-order. */
  lemma CollectNestInList<T>(l: seq<Rule>, i: nat, p: Rule -> T)
    requires 0 < i < |l|
    ensures Collect(NestInList(l, i), p) == Collect(l, p)
  {
    var prev := l[i - 1];
    var A, B, P, C, X := Collect(l[..i - 1], p), Collect(l[i + 1..], p), [p(Strip(prev))], Collect(prev.children, p), Collect([l[i]], p);
    CollectNestedParts(l, i, p);
    CollectNeighbourParts(l, i, p);
    Assoc5(A, P, C, X, B);
  }

  lemma Assoc5<T>(a: seq<T>, p: seq<T>, c: seq<T>, x: seq<T>, b: seq<T>)
    ensures a + (p + (c + x)) + b == a + (p + c) + x + b
  {
  }

  lemma CollectNestedParts<T>(l: seq<Rule>, i: nat, p: Rule -> T)
    requires 0 < i < |l|
    ensures var prev := l[i - 1];
      Collect(NestInList(l, i), p)
      == Collect(l[..i - 1], p) + ([p(Strip(prev))] + (Collect(prev.children, p) + Collect([l[i]], p))) + Collect(l[i + 1..], p)
  {
    var prev := l[i - 1];
    var moved := prev.(children := prev.children + [l[i]]);
    var a, b := l[..i - 1], l[i + 1..];
    assert NestInList(l, i) == (a + [moved]) + b;
    CollectAppend(a + [moved], b, p);
    CollectAppend(a, [moved], p);
    CollectSingle(moved, p);
    CollectAppend(prev.children, [l[i]], p);
  }

  lemma CollectNeighbourParts<T>(l: seq<Rule>, i: nat, p: Rule -> T)
    requires 0 < i < |l|
    ensures var prev := l[i - 1];
      Collect(l, p)
      == Collect(l[..i - 1], p) + ([p(Strip(prev))] + Collect(prev.children, p)) + Collect([l[i]], p) + Collect(l[i + 1..], p)
  {
    var prev := l[i - 1];
    var a, b := l[..i - 1], l[i + 1..];
    Pieces(l, i - 1);
    CollectAppend(a + [prev] + [l[i]], b, p);
    CollectAppend(a + [prev], [l[i]], p);
    CollectAppend(a, [prev], p);
    CollectSingle(prev, p);
  }

  /** Exchanging two neighbours keeps the multiset of a list's pre-order. */
  lemma CollectSwapNext<T>(l: seq<Rule>, i: nat, p: Rule -> T)
    requires i + 1 < |l|
    ensures multiset(Collect(Swap(l, i, i + 1), p)) == multiset(Collect(l, p))
  {
    var a, b := l[..i], l[i + 2..];
    var A, B, X, Y := Collect(a, p), Collect(b, p), Collect([l[i]], p), Collect([l[i + 1]], p);
    calc {
      multiset(Collect(Swap(l, i, i + 1), p));
    ==  { SwapPieces(l, i);
          CollectAppend(a + [l[i + 1]] + [l[i]], b, p);
          CollectAppend(a + [l[i + 1]], [l[i]], p);
          CollectAppend(a, [l[i + 1]], p); }
      multiset(A + Y + X + B);
    ==
      multiset(A + X + Y + B);
    ==  { Pieces(l, i);
          CollectAppend(a + [l[i]] + [l[i + 1]], b, p);
          CollectAppend(a + [l[i]], [l[i + 1]], p);
          CollectAppend(a, [l[i]], p); }
      multiset(Collect(l, p));
    }
  }

  /** Replacing one list of a forest by a list with the same multiset of pre-order
      items keeps the forest's multiset. */
  lemma WithListKeepsMultiset<T>(f: seq<Rule>, q: seq<nat>, l: seq<Rule>, p: Rule -> T)
    requires ValidList(f, q) && multiset(Collect(l, p)) == multiset(Collect(ListAt(f, q), p))
    ensures multiset(Collect(WithList(f, q, l), p)) == multiset(Collect(f, p))
  {
    CollectWithListMultiset(f, q, l, p);
    var m, k, n := multiset(Collect(WithList(f, q, l), p)), multiset(Collect(ListAt(f, q), p)), multiset(Collect(f, p));
    assert m + k == n + k;
    assert forall x :: m[x] == (m + k)[x] - k[x] && n[x] == (n + k)[x] - k[x];
  }

  /** Replacing one node by one with the same children and the same item keeps the
      forest's pre-order. */
  lemma ReplaceKeeps<T>(f: seq<Rule>, pl: Place, n: Rule, p: Rule -> T)
    requires ValidPlace(f, pl)
    requires n.children == NodeAt(f, pl).children && p(Strip(n)) == p(Strip(NodeAt(f, pl)))
    ensures Collect(ReplaceNode(f, pl, n), p) == Collect(f, p)
  {
    var l, i := ListAt(f, pl.at), pl.index;
    assert l[i] == NodeAt(f, pl);
    CollectReplace(l, i, n, p);
    CollectAround(l, i, p);
    assert Collect(l[i := n], p) == Collect(l, p);
    CollectWithList(f, pl.at, l[i := n], p);
    CollectAtList(f, pl.at, p);
  }

  // ---------------------------------------------------------------------------
  // Distinct ids

  /** With distinct ids in the forest, every list of it has distinct ids. */
  lemma DistinctIdsAt(f: seq<Rule>, q: seq<nat>)
    requires DistinctIds(f) && ValidList(f, q)
    ensures DistinctIds(ListAt(f, q))
  {
    CollectAtList(f, q, IdOf);
    forall x ensures multiset(Ids(ListAt(f, q)))[x] <= 1 {
      assert multiset(Ids(f))[x] <= 1;
    }
  }

  lemma SiblingIdsDiffer(l: seq<Rule>, k: nat, j: nat)
    requires DistinctIds(l) && k < j < |l|
    ensures l[k].id != l[j].id
  {
    DistinctIdsAround(l, j);
    NodeAtInIds(l[..j], Place([], k));
  }

  /** A forest whose ids are those of a forest with distinct ids and one fresh id more. */
  lemma DistinctWithFresh(f: seq<Rule>, g: seq<Rule>, x: string)
    requires DistinctIds(f) && x !in Ids(f) && multiset(Ids(g)) == multiset(Ids(f)) + multiset{x}
    ensures DistinctIds(g)
  {
    forall y ensures multiset(Ids(g))[y] <= 1 {
      assert multiset(Ids(f))[y] <= 1;
    }
  }

  /** `findIndex` of an id that no earlier element has. */
  lemma FindIndexAt(l: seq<Rule>, k: nat)
    requires k < |l| && forall a :: 0 <= a < k ==> l[a].id != l[k].id
    ensures FindIndex(l, l[k].id) == k
  {
  }

  // ---------------------------------------------------------------------------
  // What the actions do

  /** Every action leaves the forest as it was when no node has the id. */
  lemma EditsOfAbsentId(f: seq<Rule>, id: string, now: nat, desc: string)
    requires id !in Ids(f)
    ensures AddChild(f, id, now) == f && SaveDesc(f, id, desc) == f && Delete(f, id) == f
    ensures Nest(f, id) == f && UnNest(f, id) == f && MoveUp(f, id) == f && MoveDown(f, id) == f
  {
    LocateSpec(f, id);
    UpdateRulesAbsent(f, id, AppendChild(NewRule(NextRuleName(f), now)));
    UpdateRulesAbsent(f, id, SetDescription(desc));
  }

  /** Adding a child to the node at a place: the node gets the new node after its
      children, and nothing else changes. */
  lemma AddChildAt(f: seq<Rule>, pl: Place, now: nat)
    requires DistinctIds(f) && ValidPlace(f, pl)
    ensures var n := NodeAt(f, pl);
      AddChild(f, n.id, now) == ReplaceNode(f, pl, n.(children := n.children + [NewRule(NextRuleName(f), now)]))
  {
    UpdateRulesAt(f, pl, AppendChild(NewRule(NextRuleName(f), now)));
  }

  /** Adding a child adds exactly the new id; a fresh id keeps the ids distinct. */
  lemma AddChildIds(f: seq<Rule>, pl: Place, now: nat)
    requires DistinctIds(f) && ValidPlace(f, pl)
    ensures var g, x := AddChild(f, NodeAt(f, pl).id, now), NewRule(NextRuleName(f), now);
      multiset(Ids(g)) == multiset(Ids(f)) + multiset{x.id} && (x.id !in Ids(f) ==> DistinctIds(g))
  {
    var n, x := NodeAt(f, pl), NewRule(NextRuleName(f), now);
    var l, i := ListAt(f, pl.at), pl.index;
    var l' := l[i := n.(children := n.children + [x])];
    AddChildAt(f, pl, now);
    CollectWithListMultiset(f, pl.at, l', IdOf);
    CollectAddedChild(l, i, x);
    var g := AddChild(f, n.id, now);
    assert g == WithList(f, pl.at, l');
    MultisetShift(multiset(Ids(g)), multiset{x.id}, multiset(Ids(l)), multiset(Ids(f)));
    if x.id !in Ids(f) {
      DistinctWithFresh(f, g, x.id);
    }
  }

  /** A list in which one node gained a childless last child has one id more. */
  lemma CollectAddedChild(l: seq<Rule>, i: nat, x: Rule)
    requires i < |l| && x.children == []
    ensures multiset(Ids(l[i := l[i].(children := l[i].children + [x])])) == multiset(Ids(l)) + multiset{x.id}
  {
    var n := l[i];
    var n' := n.(children := n.children + [x]);
    CollectReplace(l, i, n', IdOf);
    CollectAround(l, i, IdOf);
    CollectAppend(n.children, [x], IdOf);
    CollectSingle(x, IdOf);
    assert Ids([x]) == [x.id];
  }

  /** `a + k + b == d + k` cancels to `a + b == d`. */
  lemma MultisetCancel<T>(a: multiset<T>, b: multiset<T>, k: multiset<T>, d: multiset<T>)
    requires a + (k + b) == d + k
    ensures a + b == d
  {
    forall y ensures (a + b)[y] == d[y] {
      assert (a + (k + b))[y] == (d + k)[y];
    }
  }

  /** `a + k == d + (k + b)` cancels to `a == d + b`. */
  lemma MultisetShift<T>(a: multiset<T>, b: multiset<T>, k: multiset<T>, d: multiset<T>)
    requires a + k == d + (k + b)
    ensures a == d + b
  {
    forall y ensures a[y] == (d + b)[y] {
      assert (a + k)[y] == (d + (k + b))[y];
    }
  }

  /** Two forests with the same multiset of ids: one has distinct ids if the other has. */
  lemma DistinctSameIds(f: seq<Rule>, g: seq<Rule>)
    requires DistinctIds(f) && multiset(Ids(g)) == multiset(Ids(f))
    ensures DistinctIds(g)
  {
    forall y ensures multiset(Ids(g))[y] <= 1 {
      assert multiset(Ids(f))[y] <= 1;
    }
  }

  /** Adding at the top level puts the new node after every node of the forest. */
  lemma AddTopLevelPreorder<T>(f: seq<Rule>, now: nat, p: Rule -> T)
    ensures Collect(AddTopLevel(f, now), p) == Collect(f, p) + [p(NewRule(NextRuleName(f), now))]
  {
    var x := NewRule(NextRuleName(f), now);
    CollectAppend(f, [x], p);
    CollectSingle(x, p);
    assert Strip(x) == x;
  }

  /** A top-level node with a fresh id keeps the ids distinct. */
  lemma AddTopLevelIds(f: seq<Rule>, now: nat)
    requires DistinctIds(f) && NewRule(NextRuleName(f), now).id !in Ids(f)
    ensures DistinctIds(AddTopLevel(f, now))
  {
    var x := NewRule(NextRuleName(f), now);
    AddTopLevelPreorder(f, now, IdOf);
    assert Ids(AddTopLevel(f, now)) == Ids(f) + [x.id];
    DistinctWithFresh(f, AddTopLevel(f, now), x.id);
  }

  /** Saving a description changes the description of the node at the place and
      nothing else: ids, names and `isOr` flags stay where they were. */
  lemma SaveDescAt(f: seq<Rule>, pl: Place, desc: string)
    requires DistinctIds(f) && ValidPlace(f, pl)
    ensures var n := NodeAt(f, pl);
      SaveDesc(f, n.id, desc) == ReplaceNode(f, pl, n.(description := desc))
    ensures var g := SaveDesc(f, NodeAt(f, pl).id, desc);
      Ids(g) == Ids(f) && Collect(g, NameOf) == Collect(f, NameOf) && Collect(g, IsOrOf) == Collect(f, IsOrOf)
  {
    var n := NodeAt(f, pl);
    UpdateRulesAt(f, pl, SetDescription(desc));
    ReplaceKeeps(f, pl, n.(description := desc), IdOf);
    ReplaceKeeps(f, pl, n.(description := desc), NameOf);
    ReplaceKeeps(f, pl, n.(description := desc), IsOrOf);
  }

  function IsOrOf(r: Rule): bool { r.isOr }

  /** Deleting the node at a place removes it from its list, the others keeping their
      order; nothing else changes. */
  lemma DeleteAt(f: seq<Rule>, pl: Place)
    requires DistinctIds(f) && ValidPlace(f, pl)
    ensures var l, g := ListAt(f, pl.at), Delete(f, NodeAt(f, pl).id);
      && ValidList(g, pl.at) && ListAt(g, pl.at) == l[..pl.index] + l[pl.index + 1..]
      && g == WithList(f, pl.at, ListAt(g, pl.at))
  {
    var l, i := ListAt(f, pl.at), pl.index;
    LocateUnique(f, pl);
    assert Delete(f, l[i].id) == WithList(f, pl.at, RemoveAt(l, i));
    WithListAt(f, pl.at, RemoveAt(l, i));
  }

  /** Deleting the node at a place removes exactly its subtree's nodes. */
  lemma DeleteCounts(f: seq<Rule>, pl: Place)
    requires DistinctIds(f) && ValidPlace(f, pl)
    ensures var n, g := NodeAt(f, pl), Delete(f, NodeAt(f, pl).id);
      multiset(Flat(g)) + multiset(Flat([n])) == multiset(Flat(f)) && Size(g) + Size([n]) == Size(f)
  {
    var l, i, n := ListAt(f, pl.at), pl.index, NodeAt(f, pl);
    DeleteAt(f, pl);
    WithListRemoved(f, pl.at, i, Strip);
    MultisetSize(Flat(Delete(f, n.id)), Flat([n]), Flat(f));
  }

  /** Removing one element of a list of the forest removes its subtree's items. */
  lemma WithListRemoved<T>(f: seq<Rule>, q: seq<nat>, i: nat, p: Rule -> T)
    requires ValidList(f, q) && i < |ListAt(f, q)|
    ensures var l := ListAt(f, q);
      multiset(Collect(WithList(f, q, RemoveAt(l, i)), p)) + multiset(Collect([l[i]], p)) == multiset(Collect(f, p))
  {
    var l := ListAt(f, q);
    var r := RemoveAt(l, i);
    var g, n, k, d := Collect(WithList(f, q, r), p), Collect([l[i]], p), Collect(r, p), Collect(f, p);
    CollectWithListMultiset(f, q, r, p);
    assert multiset(g) + multiset(Collect(l, p)) == multiset(d) + multiset(k);
    CollectRemoveAt(l, i, p);
    assert multiset(Collect(l, p)) == multiset(k) + multiset(n);
    MultisetCancel(multiset(g), multiset(n), multiset(k), multiset(d));
  }

  lemma MultisetSize<T>(a: seq<T>, b: seq<T>, d: seq<T>)
    requires multiset(a) + multiset(b) == multiset(d)
    ensures |a| + |b| == |d|
  {
    assert |multiset(a) + multiset(b)| == |multiset(d)|;
  }

  /** Nesting keeps every pre-order item of the forest in place: ids, names,
      descriptions and `isOr` flags. */
  lemma NestKeepsPreorder<T>(f: seq<Rule>, id: string, p: Rule -> T)
    ensures Collect(Nest(f, id), p) == Collect(f, p)
  {
    LocateSpec(f, id);
    match Locate(f, id)
    case None =>
    case Some(pl) =>
      if pl.index > 0 {
        var l := ListAt(f, pl.at);
        CollectWithList(f, pl.at, NestInList(l, pl.index), p);
        CollectAtList(f, pl.at, p);
        CollectNestInList(l, pl.index, p);
      }
  }

  /** Nesting the node at a place, not the first of its list: it leaves the list and
      becomes the last child of the node that was before it. */
  lemma NestAt(f: seq<Rule>, pl: Place)
    requires DistinctIds(f) && ValidPlace(f, pl) && pl.index > 0
    ensures var l, i, g := ListAt(f, pl.at), pl.index, Nest(f, NodeAt(f, pl).id);
      && ValidList(g, pl.at) && |ListAt(g, pl.at)| == |l| - 1
      && ListAt(g, pl.at)[..i - 1] == l[..i - 1] && ListAt(g, pl.at)[i..] == l[i + 1..]
      && Strip(ListAt(g, pl.at)[i - 1]) == Strip(l[i - 1])
      && ValidList(g, pl.at + [i - 1]) && ListAt(g, pl.at + [i - 1]) == l[i - 1].children + [l[i]]
      && g == WithList(f, pl.at, ListAt(g, pl.at))
  {
    var l, i := ListAt(f, pl.at), pl.index;
    LocateUnique(f, pl);
    var g := Nest(f, l[i].id);
    var m := NestInList(l, i);
    assert g == WithList(f, pl.at, m);
    WithListAt(f, pl.at, m);
    ListAtSnoc(g, pl.at, i - 1);
    assert m[..i - 1] == l[..i - 1] && m[i..] == l[i + 1..];
  }

  /** Un-nesting keeps the multiset of pre-order items of the forest. */
  lemma UnNestKeepsPreorder<T>(f: seq<Rule>, id: string, p: Rule -> T)
    ensures multiset(Collect(UnNest(f, id), p)) == multiset(Collect(f, p))
  {
    LocateSpec(f, id);
    match Locate(f, id)
    case None =>
    case Some(pl) =>
      if pl.at != [] {
        var q := pl.at;
        PathParent(f, q);
        var up := q[..|q| - 1];
        CollectUnNestInList(ListAt(f, up), q[|q| - 1], pl.index, p);
        WithListKeepsMultiset(f, up, UnNestInList(ListAt(f, up), q[|q| - 1], pl.index), p);
      }
  }

  lemma CollectUnNestInList<T>(l: seq<Rule>, j: nat, i: nat, p: Rule -> T)
    requires j < |l| && i < |l[j].children|
    ensures multiset(Collect(UnNestInList(l, j, i), p)) == multiset(Collect(l, p))
  {
    var parent := l[j];
    var ch := parent.children;
    var emptied := l[j := parent.(children := RemoveAt(ch, i))];
    CollectInsertAt(emptied, FindIndex(emptied, parent.id) + 1, ch[i], p);
    CollectReplace(l, j, parent.(children := RemoveAt(ch, i)), p);
    CollectRemoveAt(ch, i, p);
    CollectAround(l, j, p);
  }

  /** With distinct ids the parent's list is searched to the parent itself, so the
      child lands right after it. */
  lemma UnNestInListDistinct(l: seq<Rule>, j: nat, i: nat)
    requires DistinctIds(l) && j < |l| && i < |l[j].children|
    ensures UnNestInList(l, j, i) == l[..j] + [l[j].(children := RemoveAt(l[j].children, i))] + [l[j].children[i]] + l[j + 1..]
  {
    var parent := l[j];
    var emptied := l[j := parent.(children := RemoveAt(parent.children, i))];
    forall a | 0 <= a < j ensures emptied[a].id != emptied[j].id {
      SiblingIdsDiffer(l, a, j);
    }
    FindIndexAt(emptied, j);
    assert emptied[..j + 1] == l[..j] + [emptied[j]] && emptied[j + 1..] == l[j + 1..];
  }

  /** Un-nesting the `i`-th child of the `j`-th node of the list at `up`: the child
      leaves its parent's children and follows the parent in that list; nothing else
      changes. */
  lemma UnNestAt(f: seq<Rule>, up: seq<nat>, j: nat, i: nat)
    requires DistinctIds(f) && ValidList(f, up) && j < |ListAt(f, up)| && i < |ListAt(f, up)[j].children|
    ensures var l := ListAt(f, up); var g := UnNest(f, l[j].children[i].id);
      && ValidList(g, up)
      && ListAt(g, up) == l[..j] + [l[j].(children := RemoveAt(l[j].children, i))] + [l[j].children[i]] + l[j + 1..]
      && g == WithList(f, up, ListAt(g, up))
  {
    var l := ListAt(f, up);
    var q := up + [j];
    ListAtSnoc(f, up, j);
    LocateUnique(f, Place(q, i));
    assert q[..|q| - 1] == up && q[|q| - 1] == j;
    DistinctIdsAt(f, up);
    UnNestInListDistinct(l, j, i);
    assert UnNest(f, l[j].children[i].id) == WithList(f, up, UnNestInList(l, j, i));
    WithListAt(f, up, UnNestInList(l, j, i));
  }

  /** Un-nesting a node right after nesting it puts the forest back as it was. */
  lemma NestThenUnNest(f: seq<Rule>, pl: Place)
    requires DistinctIds(f) && ValidPlace(f, pl) && pl.index > 0
    ensures UnNest(Nest(f, NodeAt(f, pl).id), NodeAt(f, pl).id) == f
  {
    var at, i := pl.at, pl.index;
    var l := ListAt(f, at);
    var x, prev := l[i], l[i - 1];
    var m := NestInList(l, i);
    LocateUnique(f, pl);
    var g := Nest(f, x.id);
    assert g == WithList(f, at, m);
    WithListAt(f, at, m);
    NestKeepsPreorder(f, x.id, IdOf);
    DistinctSameIds(f, g);
    ListAtSnoc(g, at, i - 1);
    var q := at + [i - 1];
    var back := Place(q, |prev.children|);
    assert ListAt(g, q) == prev.children + [x];
    LocateUnique(g, back);
    assert q[..|q| - 1] == at && q[|q| - 1] == i - 1;
    DistinctIdsAt(f, at);
    UnNestInListBack(l, i);
    WithListTwice(f, at, m, l);
    WithListSame(f, at);
  }

  lemma UnNestInListBack(l: seq<Rule>, i: nat)
    requires DistinctIds(l) && 0 < i < |l|
    ensures var m := NestInList(l, i); i - 1 < |m| && |l[i - 1].children| < |m[i - 1].children|
    ensures UnNestInList(NestInList(l, i), i - 1, |l[i - 1].children|) == l
  {
    var m, prev := NestInList(l, i), l[i - 1];
    var k := |prev.children|;
    assert RemoveAt(prev.children + [l[i]], k) == prev.children;
    var emptied := m[i - 1 := prev];
    assert emptied == l[..i - 1] + [prev] + l[i + 1..];
    forall a | 0 <= a < i - 1 ensures emptied[a].id != emptied[i - 1].id {
      SiblingIdsDiffer(l, a, i - 1);
    }
    FindIndexAt(emptied, i - 1);
    assert InsertAt(emptied, i, l[i]) == l;
  }

  /** Moving up keeps the multiset of pre-order items of the forest. */
  lemma MoveUpKeepsPreorder<T>(f: seq<Rule>, id: string, p: Rule -> T)
    ensures multiset(Collect(MoveUp(f, id), p)) == multiset(Collect(f, p))
  {
    LocateSpec(f, id);
    match Locate(f, id)
    case None =>
    case Some(pl) =>
      var l, i := ListAt(f, pl.at), pl.index;
      if i > 0 {
        assert MoveUp(f, id) == WithList(f, pl.at, Swap(l, i - 1, i));
        CollectSwapNext(l, i - 1, p);
        WithListKeepsMultiset(f, pl.at, Swap(l, i - 1, i), p);
      }
  }

  /** Moving down keeps the multiset of pre-order items of the forest. */
  lemma MoveDownKeepsPreorder<T>(f: seq<Rule>, id: string, p: Rule -> T)
    ensures multiset(Collect(MoveDown(f, id), p)) == multiset(Collect(f, p))
  {
    LocateSpec(f, id);
    match Locate(f, id)
    case None =>
    case Some(pl) =>
      var l, i := ListAt(f, pl.at), pl.index;
      if i < |l| - 1 {
        assert MoveDown(f, id) == WithList(f, pl.at, Swap(l, i, i + 1));
        CollectSwapNext(l, i, p);
        WithListKeepsMultiset(f, pl.at, Swap(l, i, i + 1), p);
      }
  }

  /** Moving the node at a place up exchanges it with the node before it in its list;
      nothing else changes. */
  lemma MoveUpAt(f: seq<Rule>, pl: Place)
    requires DistinctIds(f) && ValidPlace(f, pl) && pl.index > 0
    ensures var l, i, g := ListAt(f, pl.at), pl.index, MoveUp(f, NodeAt(f, pl).id);
      && ValidList(g, pl.at) && ListAt(g, pl.at) == Swap(l, i - 1, i)
      && g == WithList(f, pl.at, ListAt(g, pl.at))
  {
    LocateUnique(f, pl);
    WithListAt(f, pl.at, Swap(ListAt(f, pl.at), pl.index - 1, pl.index));
  }

  /** Moving the node at a place down exchanges it with the node after it in its list;
      nothing else changes. */
  lemma MoveDownAt(f: seq<Rule>, pl: Place)
    requires DistinctIds(f) && ValidPlace(f, pl) && pl.index + 1 < |ListAt(f, pl.at)|
    ensures var l, i, g := ListAt(f, pl.at), pl.index, MoveDown(f, NodeAt(f, pl).id);
      && ValidList(g, pl.at) && ListAt(g, pl.at) == Swap(l, i, i + 1)
      && g == WithList(f, pl.at, ListAt(g, pl.at))
  {
    LocateUnique(f, pl);
    WithListAt(f, pl.at, Swap(ListAt(f, pl.at), pl.index, pl.index + 1));
  }

  /** The actions that have nowhere to go leave the forest as it was: nesting or
      moving up the first node of a list, moving down the last, un-nesting a root. */
  lemma EditsAtBoundary(f: seq<Rule>, pl: Place)
    requires DistinctIds(f) && ValidPlace(f, pl)
    ensures pl.index == 0 ==> Nest(f, NodeAt(f, pl).id) == f && MoveUp(f, NodeAt(f, pl).id) == f
    ensures pl.index + 1 == |ListAt(f, pl.at)| ==> MoveDown(f, NodeAt(f, pl).id) == f
    ensures pl.at == [] ==> UnNest(f, NodeAt(f, pl).id) == f
  {
    LocateUnique(f, pl);
  }

  /** Moving a node down right after moving it up puts the forest back as it was. */
  lemma MoveUpThenDown(f: seq<Rule>, pl: Place)
    requires DistinctIds(f) && ValidPlace(f, pl) && pl.index > 0
    ensures MoveDown(MoveUp(f, NodeAt(f, pl).id), NodeAt(f, pl).id) == f
  {
    var at, i := pl.at, pl.index;
    var x := ListAt(f, at)[i];
    MoveUpAt(f, pl);
    var g := MoveUp(f, x.id);
    MoveUpKeepsPreorder(f, x.id, IdOf);
    DistinctSameIds(f, g);
    assert NodeAt(g, Place(at, i - 1)) == x;
    MoveDownAt(g, Place(at, i - 1));
    SwapBack(f, at, i - 1, i);
  }

  /** Moving a node up right after moving it down puts the forest back as it was. */
  lemma MoveDownThenUp(f: seq<Rule>, pl: Place)
    requires DistinctIds(f) && ValidPlace(f, pl) && pl.index + 1 < |ListAt(f, pl.at)|
    ensures MoveUp(MoveDown(f, NodeAt(f, pl).id), NodeAt(f, pl).id) == f
  {
    var at, i := pl.at, pl.index;
    var x := ListAt(f, at)[i];
    MoveDownAt(f, pl);
    var g := MoveDown(f, x.id);
    MoveDownKeepsPreorder(f, x.id, IdOf);
    DistinctSameIds(f, g);
    assert NodeAt(g, Place(at, i + 1)) == x;
    MoveUpAt(g, Place(at, i + 1));
    SwapBack(f, at, i, i + 1);
  }

  /** Exchanging two elements of a list of the forest, then exchanging them again,
      gives the forest back. */
  lemma SwapBack(f: seq<Rule>, at: seq<nat>, a: nat, b: nat)
    requires ValidList(f, at) && a < |ListAt(f, at)| && b < |ListAt(f, at)|
    ensures var g := WithList(f, at, Swap(ListAt(f, at), a, b));
      ValidList(g, at) && ListAt(g, at) == Swap(ListAt(f, at), a, b) && WithList(g, at, Swap(ListAt(g, at), a, b)) == f
  {
    var l := ListAt(f, at);
    var s := Swap(l, a, b);
    WithListAt(f, at, s);
    SwapTwice(l, a, b);
    WithListTwice(f, at, s, l);
    WithListSame(f, at);
  }

  // ---------------------------------------------------------------------------
  // The component

  /** The actions a node's buttons send to `handleAction`. */
  datatype RuleAction = AddAction | DeleteAction | NestAction | UnNestAction

  /** The component's state that the actions read and write: the forest shown (none
      until it has been fetched) and the description being edited. */
  class Editor {
    var rules: Option<seq<Rule>>
    var editDescId: Option<string>
    var editDescValue: string

    constructor ()
      ensures rules == None && editDescId == None && editDescValue == ""
    {
      rules := None;
      editDescId := None;
      editDescValue := "";
    }

    /** A fetched forest becomes the one shown. */
    method Load(data: seq<Rule>)
      modifies this
      ensures rules == Some(data)
      ensures editDescId == old(editDescId) && editDescValue == old(editDescValue)
    {
      rules := Some(data);
    }

    /** `handleAction`: 'nest', 'add' and 'delete' change the forest; 'unNest' only
        opens the dialog. Nothing happens before a forest is shown. */
    method HandleAction(ruleId: string, action: RuleAction, now: nat)
      modifies this
      ensures old(rules) == None ==> rules == None
      ensures old(rules) != None ==> rules == Some(
        match action
        case NestAction => Nest(old(rules).value, ruleId)
        case AddAction => AddChild(old(rules).value, ruleId, now)
        case DeleteAction => Delete(old(rules).value, ruleId)
        case UnNestAction => old(rules).value)
      ensures editDescId == old(editDescId) && editDescValue == old(editDescValue)
    {
      if rules == None {
        return;
      }
      var f := rules.value;
      match action
      case NestAction =>
        rules := Some(Nest(f, ruleId));
      case AddAction =>
        var nextName := GetNextRuleName(f);
        rules := Some(UpdateRules(f, ruleId, AppendChild(NewRule(nextName, now))));
      case DeleteAction =>
        rules := Some(Delete(f, ruleId));
      case UnNestAction =>
    }

    /** `handleEditDesc`: the node and the text being edited. */
    method HandleEditDesc(ruleId: string, desc: string)
      modifies this
      ensures editDescId == Some(ruleId) && editDescValue == desc && rules == old(rules)
    {
      editDescId := Some(ruleId);
      editDescValue := desc;
    }

    /** `handleSaveDesc`: the text being edited becomes the node's description and the
        editing ends. Nothing happens before a forest is shown. */
    method HandleSaveDesc(ruleId: string)
      modifies this
      ensures old(rules) == None ==> rules == None && editDescId == old(editDescId) && editDescValue == old(editDescValue)
      ensures old(rules) != None ==>
        rules == Some(SaveDesc(old(rules).value, ruleId, old(editDescValue))) && editDescId == None && editDescValue == ""
    {
      if rules == None {
        return;
      }
      rules := Some(SaveDesc(rules.value, ruleId, editDescValue));
      editDescId := None;
      editDescValue := "";
    }

    /** `handleUnNest`. */
    method HandleUnNest(ruleId: string)
      modifies this
      ensures rules == (if old(rules) == None then None else Some(UnNest(old(rules).value, ruleId)))
      ensures editDescId == old(editDescId) && editDescValue == old(editDescValue)
    {
      if rules == None {
        return;
      }
      rules := Some(UnNest(rules.value, ruleId));
    }

    /** `moveRuleUp`. */
    method MoveRuleUp(ruleId: string)
      modifies this
      ensures rules == (if old(rules) == None then None else Some(MoveUp(old(rules).value, ruleId)))
      ensures editDescId == old(editDescId) && editDescValue == old(editDescValue)
    {
      if rules == None {
        return;
      }
      rules := Some(MoveUp(rules.value, ruleId));
    }

    /** `moveRuleDown`. */
    method MoveRuleDown(ruleId: string)
      modifies this
      ensures rules == (if old(rules) == None then None else Some(MoveDown(old(rules).value, ruleId)))
      ensures editDescId == old(editDescId) && editDescValue == old(editDescValue)
    {
      if rules == None {
        return;
      }
      rules := Some(MoveDown(rules.value, ruleId));
    }

    /** The add-top-level button, which is only shown once a forest is. */
    method AddTopLevelRule(now: nat)
      requires rules != None
      modifies this
      ensures rules == Some(AddTopLevel(old(rules).value, now))
      ensures editDescId == old(editDescId) && editDescValue == old(editDescValue)
    {
      var f := rules.value;
      var nextName := GetNextRuleName(f);
      rules := Some(f + [NewRule(nextName, now)]);
    }
  }
}
