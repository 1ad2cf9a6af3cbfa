/** The rule node shared by the parser and the editor, and the pre-order views of a
    forest (its ids, its nodes without their subtrees) that the properties are stated in. */
module RuleModel {
  import opened JsText

  /** One condition of the authoring tree; a forest is a `seq<Rule>` of roots. */
  datatype Rule = Rule(id: string, name: string, description: string, children: seq<Rule>, isOr: bool)

  datatype Option<T> = None | Some(value: T)

  /** `Rule-<n>`: the form of parser ids and of generated names. */
  function RuleLabel(n: nat): string {
    "Rule-" + NatToString(n)
  }

  lemma RuleLabelInjective(a: nat, b: nat)
    requires a != b
    ensures RuleLabel(a) != RuleLabel(b)
  {
    NatToStringInjective(a, b);
    assert RuleLabel(a)[5..] == NatToString(a);
    assert RuleLabel(b)[5..] == NatToString(b);
  }

  /** The number of nodes of a forest, at every depth. */
  function Size(f: seq<Rule>): nat {
    if f == [] then 0 else 1 + Size(f[0].children) + Size(f[1..])
  }

  /** `p` of every node without its subtree, in pre-order (a node, then its children,
      then its next sibling). */
  function Collect<T>(f: seq<Rule>, p: Rule -> T): (r: seq<T>)
    ensures |r| == Size(f)
  {
    if f == [] then [] else [p(Strip(f[0]))] + Collect(f[0].children, p) + Collect(f[1..], p)
  }

  function IdOf(r: Rule): string { r.id }

  /** A node without its subtree. */
  function Strip(r: Rule): Rule { r.(children := []) }

  /** Every id in the forest, in pre-order. */
  function Ids(f: seq<Rule>): seq<string> { Collect(f, IdOf) }

  /** Every node in pre-order, each without its subtree: all that a forest holds
      besides its shape. */
  function Flat(f: seq<Rule>): seq<Rule> { Collect(f, Strip) }

  /** No id occurs twice anywhere in the forest. */
  ghost predicate DistinctIds(f: seq<Rule>) {
    forall x :: multiset(Ids(f))[x] <= 1
  }

  lemma {:induction false} CollectAppend<T>(a: seq<Rule>, b: seq<Rule>, p: Rule -> T)
    ensures Collect(a + b, p) == Collect(a, p) + Collect(b, p)
    decreases |a|
  {
    if a == [] {
      assert a + b == b;
    } else {
      assert (a + b)[0] == a[0];
      assert (a + b)[1..] == a[1..] + b;
      CollectAppend(a[1..], b, p);
      assert Collect(a + b, p) == [p(Strip(a[0]))] + Collect(a[0].children, p) + Collect(a[1..] + b, p);
    }
  }

  lemma CollectSplit<T>(f: seq<Rule>, k: nat, p: Rule -> T)
    requires k <= |f|
    ensures Collect(f, p) == Collect(f[..k], p) + Collect(f[k..], p)
  {
    assert f == f[..k] + f[k..];
    CollectAppend(f[..k], f[k..], p);
  }

  lemma CollectFrom<T>(f: seq<Rule>, k: nat, p: Rule -> T)
    requires k < |f|
    ensures Collect(f[k..], p) == [p(Strip(f[k]))] + Collect(f[k].children, p) + Collect(f[k + 1..], p)
  {
    var tail := f[k..];
    assert tail[0] == f[k] && tail[1..] == f[k + 1..];
  }

  /** The pre-order of a forest around its `k`-th root. */
  lemma CollectAround<T>(f: seq<Rule>, k: nat, p: Rule -> T)
    requires k < |f|
    ensures Collect(f, p) == Collect(f[..k], p) + [p(Strip(f[k]))] + Collect(f[k].children, p) + Collect(f[k + 1..], p)
  {
    CollectSplit(f, k, p);
    CollectFrom(f, k, p);
  }

  /** Within a list without repeated elements, both halves are without repeats and
      share no element. */
  lemma CountsSplit<T>(a: seq<T>, b: seq<T>)
    requires forall x :: multiset(a + b)[x] <= 1
    ensures forall x :: multiset(a)[x] <= 1
    ensures forall x :: multiset(b)[x] <= 1
    ensures forall x :: x in a ==> x !in b
  {
    assert multiset(a + b) == multiset(a) + multiset(b);
    forall x ensures multiset(a)[x] <= 1 && multiset(b)[x] <= 1 {
      assert multiset(a + b)[x] <= 1;
    }
    forall x | x in a ensures x !in b {
      assert multiset(a + b)[x] <= 1;
    }
  }

  /** The ids of the `k`-th root and its subtree repeat nowhere else in a forest with
      distinct ids. */
  lemma DistinctIdsAround(f: seq<Rule>, k: nat)
    requires k < |f| && DistinctIds(f)
    ensures DistinctIds(f[k].children)
    ensures f[k].id !in Ids(f[k].children)
    ensures forall x :: x in Ids(f[k].children) || x == f[k].id ==> x !in Ids(f[..k]) && x !in Ids(f[k + 1..])
  {
    var before, here, below, after := Ids(f[..k]), [f[k].id], Ids(f[k].children), Ids(f[k + 1..]);
    CollectAround(f, k, IdOf);
    assert Ids(f) == before + here + below + after;
    CountsSplit(before + here + below, after);
    ConcatAssoc(before, here, below);
    CountsSplit(before, here + below);
    CountsSplit(here, below);
  }

  /** A list has no repeated element exactly when no multiplicity exceeds one. */
  lemma {:induction false} NoRepeatsMultiset<T>(s: seq<T>)
    requires forall i, j :: 0 <= i < j < |s| ==> s[i] != s[j]
    ensures forall x :: multiset(s)[x] <= 1
    decreases |s|
  {
    if s != [] {
      var t := s[1..];
      NoRepeatsMultiset(t);
      assert s == [s[0]] + t;
      assert s[0] !in t;
      assert multiset(t)[s[0]] == 0;
    }
  }
}
