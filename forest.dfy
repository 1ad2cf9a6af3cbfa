/** The editor's view of a forest: where a node sits, the pre-order search by id that
    every editing action starts with, replacing one list of the tree, and `updateRules`. */
module Forest {
  import opened RuleModel

  /** Where a node sits: the positions of its ancestors from the root list down (`at`),
      then its position in the list that holds it (`index`). The search results of the
      editor refer to nodes and lists of the tree itself; a place stands for them. */
  datatype Place = Place(at: seq<nat>, index: nat)

  /** `q` leads from the root list to a list of the forest, each step entering the
      children of the node at that position. */
  predicate ValidList(f: seq<Rule>, q: seq<nat>)
    decreases |q|
  {
    q == [] || (q[0] < |f| && ValidList(f[q[0]].children, q[1..]))
  }

  /** The list `q` leads to: the root list for the empty path. */
  function ListAt(f: seq<Rule>, q: seq<nat>): seq<Rule>
    requires ValidList(f, q)
    decreases |q|
  {
    if q == [] then f else ListAt(f[q[0]].children, q[1..])
  }

  predicate ValidPlace(f: seq<Rule>, pl: Place) {
    ValidList(f, pl.at) && pl.index < |ListAt(f, pl.at)|
  }

  function NodeAt(f: seq<Rule>, pl: Place): Rule
    requires ValidPlace(f, pl)
  {
    ListAt(f, pl.at)[pl.index]
  }

  /** The node whose children the non-empty path `q` leads to. */
  function NodeOnPath(f: seq<Rule>, q: seq<nat>): Rule
    requires q != [] && ValidList(f, q)
    decreases |q|
  {
    if |q| == 1 then f[q[0]] else NodeOnPath(f[q[0]].children, q[1..])
  }

  /** The parent of the nodes of the list at `q`: none for the root list. */
  function ParentOf(f: seq<Rule>, q: seq<nat>): Option<Rule>
    requires ValidList(f, q)
  {
    if q == [] then None else Some(NodeOnPath(f, q))
  }

  /** The forest with the list at `q` replaced by `l`, everything else as it was. */
  function WithList(f: seq<Rule>, q: seq<nat>, l: seq<Rule>): seq<Rule>
    requires ValidList(f, q)
    decreases |q|
  {
    if q == [] then l
    else f[q[0] := f[q[0]].(children := WithList(f[q[0]].children, q[1..], l))]
  }

  /** The forest with the node at `pl` replaced by `n`. */
  function ReplaceNode(f: seq<Rule>, pl: Place, n: Rule): seq<Rule>
    requires ValidPlace(f, pl)
  {
    WithList(f, pl.at, ListAt(f, pl.at)[pl.index := n])
  }

  /** The position of a place in the list that holds it, from the root list. */
  function Head(pl: Place): nat {
    if pl.at == [] then pl.index else pl.at[0]
  }

  /** The same place seen from the children of the root it lies under. */
  function Tail(pl: Place): Place
    requires pl.at != []
  {
    Place(pl.at[1..], pl.index)
  }

  /** The ids a pre-order walk visits before it reaches the node at `pl`. */
  function IdsBefore(f: seq<Rule>, pl: Place): seq<string>
    requires ValidPlace(f, pl)
    decreases |pl.at|
  {
    if pl.at == [] then Ids(f[..pl.index])
    else Ids(f[..pl.at[0]]) + [f[pl.at[0]].id] + IdsBefore(f[pl.at[0]].children, Tail(pl))
  }

  // ---------------------------------------------------------------------------
  // The search

  /** The loop of the `findParentAndIndex` helpers from position `i`: each node is
      tested, then its subtree searched, before the next sibling. */
  function Search(rules: seq<Rule>, id: string, i: nat): Option<Place>
    requires i <= |rules|
    decreases rules, |rules| - i
  {
    if i == |rules| then None
    else if rules[i].id == id then Some(Place([], i))
    else
      match Search(rules[i].children, id, 0)
      case Some(pl) => Some(Place([i] + pl.at, pl.index))
      case None => Search(rules, id, i + 1)
  }

  /** The place of the first node with this id in pre-order. */
  function Locate(f: seq<Rule>, id: string): Option<Place> {
    Search(f, id, 0)
  }

  lemma IdsFrom(rules: seq<Rule>, i: nat, h: nat)
    requires i < h <= |rules|
    ensures Ids(rules[i..h]) == [rules[i].id] + Ids(rules[i].children) + Ids(rules[i + 1..h])
  {
    var part := rules[..h];
    CollectFrom(part, i, IdOf);
    assert part[i..] == rules[i..h] && part[i + 1..] == rules[i + 1..h] && part[i] == rules[i];
  }

  lemma PlaceUnder(rules: seq<Rule>, i: nat, pl: Place)
    requires i < |rules| && ValidPlace(rules[i].children, pl)
    ensures var up := Place([i] + pl.at, pl.index);
      ValidPlace(rules, up) && up.at != [] && Head(up) == i && Tail(up) == pl
      && NodeAt(rules, up) == NodeAt(rules[i].children, pl)
  {
    var q := [i] + pl.at;
    assert q[0] == i && q[1..] == pl.at;
  }

  /** What the search finds: nothing exactly when the id is absent from the rest of
      the list and the subtrees under it; otherwise a place holding the id, with the id
      absent from everything the walk passed on the way. */
  lemma {:induction false} SearchSpec(rules: seq<Rule>, id: string, i: nat)
    requires i <= |rules|
    ensures Search(rules, id, i) == None <==> id !in Ids(rules[i..])
    ensures Search(rules, id, i).Some? ==>
      var pl := Search(rules, id, i).value;
      && ValidPlace(rules, pl) && NodeAt(rules, pl).id == id
      && i <= Head(pl) && id !in Ids(rules[i..Head(pl)])
      && (pl.at != [] ==> rules[Head(pl)].id != id && id !in IdsBefore(rules[Head(pl)].children, Tail(pl)))
    decreases rules, |rules| - i
  {
    if i < |rules| {
      CollectFrom(rules, i, IdOf);
      if rules[i].id != id {
        var below := rules[i].children;
        SearchSpec(below, id, 0);
        match Search(below, id, 0)
        case Some(pl) =>
          PlaceUnder(rules, i, pl);
          FirstFromParts(below, id, pl);
        case None =>
          SearchSpec(rules, id, i + 1);
          var r := Search(rules, id, i + 1);
          if r.Some? {
            IdsFrom(rules, i, Head(r.value));
          }
      }
    }
  }

  /** Absence from the list before the head position and from the part of the head's
      subtree before the place is absence from the whole pre-order prefix. */
  lemma FirstFromParts(f: seq<Rule>, id: string, pl: Place)
    requires ValidPlace(f, pl) && Head(pl) <= |f| && id !in Ids(f[0..Head(pl)])
    requires pl.at != [] ==> f[Head(pl)].id != id && id !in IdsBefore(f[Head(pl)].children, Tail(pl))
    ensures id !in IdsBefore(f, pl)
  {
    assert f[0..Head(pl)] == f[..Head(pl)];
  }

  /** The id of every node of the forest is among its ids. */
  lemma {:induction false} NodeAtInIds(f: seq<Rule>, pl: Place)
    requires ValidPlace(f, pl)
    ensures NodeAt(f, pl).id in Ids(f)
    decreases |pl.at|
  {
    var h := Head(pl);
    CollectAround(f, h, IdOf);
    if pl.at != [] {
      PlaceUnder(f, h, Tail(pl));
      assert Place([h] + Tail(pl).at, pl.index) == pl;
      NodeAtInIds(f[h].children, Tail(pl));
    }
  }

  /** The search passes over a stretch of the list in which the id does not occur. */
  lemma {:induction false} SearchSkip(rules: seq<Rule>, id: string, i: nat, h: nat)
    requires i <= h <= |rules| && id !in Ids(rules[i..h])
    ensures Search(rules, id, i) == Search(rules, id, h)
    decreases h - i
  {
    if i < h {
      IdsFrom(rules, i, h);
      SearchSpec(rules[i].children, id, 0);
      assert rules[i].children[0..] == rules[i].children;
      SearchSkip(rules, id, i + 1, h);
    }
  }

  /** In a forest whose ids are distinct, the node with an id is the one `Locate` finds. */
  lemma {:induction false} LocateUnique(f: seq<Rule>, pl: Place)
    requires DistinctIds(f) && ValidPlace(f, pl)
    ensures Locate(f, NodeAt(f, pl).id) == Some(pl)
    decreases |pl.at|
  {
    var id := NodeAt(f, pl).id;
    var h := Head(pl);
    DistinctIdsAround(f, h);
    if pl.at != [] {
      var below := f[h].children;
      PlaceUnder(f, h, Tail(pl));
      assert Place([h] + Tail(pl).at, pl.index) == pl;
      NodeAtInIds(below, Tail(pl));
      LocateUnique(below, Tail(pl));
    }
    assert f[0..h] == f[..h];
    SearchSkip(f, id, 0, h);
  }

  // ---------------------------------------------------------------------------
  // Lists of the tree

  lemma {:induction false} ListAtSnoc(f: seq<Rule>, q: seq<nat>, i: nat)
    requires ValidList(f, q) && i < |ListAt(f, q)|
    ensures ValidList(f, q + [i]) && ListAt(f, q + [i]) == ListAt(f, q)[i].children
    decreases |q|
  {
    var q' := q + [i];
    if q == [] {
      assert q'[1..] == [];
    } else {
      assert q'[0] == q[0] && q'[1..] == q[1..] + [i];
      ListAtSnoc(f[q[0]].children, q[1..], i);
    }
  }

  /** The node on a path is the one the path's last step enters. */
  lemma {:induction false} NodeOnPathAt(f: seq<Rule>, q: seq<nat>)
    requires q != [] && ValidList(f, q)
    ensures NodeOnPath(f, q).children == ListAt(f, q)
    ensures ValidPlace(f, Place(q[..|q| - 1], q[|q| - 1]))
    ensures NodeOnPath(f, q) == NodeAt(f, Place(q[..|q| - 1], q[|q| - 1]))
    decreases |q|
  {
    if |q| > 1 {
      var r := q[1..];
      NodeOnPathAt(f[q[0]].children, r);
      assert q[..|q| - 1] == [q[0]] + r[..|r| - 1];
      PlaceUnder(f, q[0], Place(r[..|r| - 1], r[|r| - 1]));
    } else {
      assert q[..0] == [];
    }
  }

  /** Replacing a list puts it in place and keeps the path valid. */
  lemma {:induction false} WithListAt(f: seq<Rule>, q: seq<nat>, l: seq<Rule>)
    requires ValidList(f, q)
    ensures ValidList(WithList(f, q, l), q) && ListAt(WithList(f, q, l), q) == l
    decreases |q|
  {
    if q != [] {
      WithListAt(f[q[0]].children, q[1..], l);
    }
  }

  /** Putting back the list that is there changes nothing. */
  lemma {:induction false} WithListSame(f: seq<Rule>, q: seq<nat>)
    requires ValidList(f, q)
    ensures WithList(f, q, ListAt(f, q)) == f
    decreases |q|
  {
    if q != [] {
      WithListSame(f[q[0]].children, q[1..]);
    }
  }

  /** A second replacement of the same list undoes the first. */
  lemma {:induction false} WithListTwice(f: seq<Rule>, q: seq<nat>, l1: seq<Rule>, l2: seq<Rule>)
    requires ValidList(f, q)
    ensures ValidList(WithList(f, q, l1), q)
    ensures WithList(WithList(f, q, l1), q, l2) == WithList(f, q, l2)
    decreases |q|
  {
    WithListAt(f, q, l1);
    if q != [] {
      WithListTwice(f[q[0]].children, q[1..], l1, l2);
    }
  }

  /** What a pre-order walk collects before the list at `q`. */
  function Before<T>(f: seq<Rule>, q: seq<nat>, p: Rule -> T): seq<T>
    requires ValidList(f, q)
    decreases |q|
  {
    if q == [] then [] else Collect(f[..q[0]], p) + [p(Strip(f[q[0]]))] + Before(f[q[0]].children, q[1..], p)
  }

  /** What a pre-order walk collects after the list at `q`. */
  function After<T>(f: seq<Rule>, q: seq<nat>, p: Rule -> T): seq<T>
    requires ValidList(f, q)
    decreases |q|
  {
    if q == [] then [] else After(f[q[0]].children, q[1..], p) + Collect(f[q[0] + 1..], p)
  }

  /** The pre-order of a forest in which one list was replaced: the list's own part
      changes and nothing around it does. */
  lemma {:induction false} CollectWithList<T>(f: seq<Rule>, q: seq<nat>, l: seq<Rule>, p: Rule -> T)
    requires ValidList(f, q)
    ensures Collect(WithList(f, q, l), p) == Before(f, q, p) + Collect(l, p) + After(f, q, p)
    decreases |q|
  {
    if q == [] {
      assert Collect(l, p) == [] + Collect(l, p) + [];
    } else {
      var h := q[0];
      var g := WithList(f, q, l);
      var inner := WithList(f[h].children, q[1..], l);
      CollectWithList(f[h].children, q[1..], l, p);
      CollectAround(g, h, p);
      assert g[..h] == f[..h] && g[h + 1..] == f[h + 1..];
      assert Strip(g[h]) == Strip(f[h]) && g[h].children == inner;
      var b, m, a := Before(f[h].children, q[1..], p), Collect(l, p), After(f[h].children, q[1..], p);
      var x, y, z := Collect(f[..h], p), [p(Strip(f[h]))], Collect(f[h + 1..], p);
      assert Before(f, q, p) == x + y + b;
      assert After(f, q, p) == a + z;
      Regroup(x, y, b, m, a, z);
    }
  }

  lemma Regroup<T>(x: seq<T>, y: seq<T>, b: seq<T>, m: seq<T>, a: seq<T>, z: seq<T>)
    ensures x + y + (b + m + a) + z == (x + y + b) + m + (a + z)
  {
  }

  /** The pre-order of a forest around one of its lists. */
  lemma CollectAtList<T>(f: seq<Rule>, q: seq<nat>, p: Rule -> T)
    requires ValidList(f, q)
    ensures Collect(f, p) == Before(f, q, p) + Collect(ListAt(f, q), p) + After(f, q, p)
  {
    WithListSame(f, q);
    CollectWithList(f, q, ListAt(f, q), p);
  }

  /** Replacing a list by one with the same multiset of pre-order items keeps the
      multiset of the whole forest; and what it adds or removes is added or removed. */
  lemma CollectWithListMultiset<T>(f: seq<Rule>, q: seq<nat>, l: seq<Rule>, p: Rule -> T)
    requires ValidList(f, q)
    ensures multiset(Collect(WithList(f, q, l), p)) + multiset(Collect(ListAt(f, q), p))
         == multiset(Collect(f, p)) + multiset(Collect(l, p))
  {
    CollectWithList(f, q, l, p);
    CollectAtList(f, q, p);
  }

  // ---------------------------------------------------------------------------
  // What the three search helpers report

  /** `findParentAndIndex`'s result: the parent of the first match (none at the top
      level) and its index among the parent's children. */
  datatype ParentIndex = ParentIndex(parent: Option<Rule>, index: nat)

  /** `findParentAndIndexWithSiblings`'s result: also the list that holds the match. */
  datatype Found = Found(parent: Option<Rule>, index: nat, siblings: seq<Rule>)

  /** `findParentAndIndexWithGrandparent`'s result: also the parent's parent and the
      list that holds the parent (none for a top-level match). */
  datatype Lineage = Lineage(parent: Option<Rule>, index: nat, grandparent: Option<Rule>, parentSiblings: Option<seq<Rule>>)

  /** The list that holds the node at the end of the non-empty path `q`, and its parent. */
  lemma PathParent(f: seq<Rule>, q: seq<nat>)
    requires q != [] && ValidList(f, q)
    ensures ValidList(f, q[..|q| - 1]) && q[|q| - 1] < |ListAt(f, q[..|q| - 1])|
    ensures ListAt(f, q[..|q| - 1])[q[|q| - 1]] == NodeOnPath(f, q)
    ensures NodeOnPath(f, q).children == ListAt(f, q)
    ensures |q| == 1 ==> q[..|q| - 1] == []
  {
    NodeOnPathAt(f, q);
  }

  /** `pl` holds the first node with this id that a pre-order walk meets. */
  predicate FirstMatch(rules: seq<Rule>, id: string, pl: Place) {
    ValidPlace(rules, pl) && NodeAt(rules, pl).id == id && id !in IdsBefore(rules, pl)
  }

  /** `Locate` finds the first node with the id in pre-order, and nothing exactly when
      no node has it. */
  lemma LocateSpec(f: seq<Rule>, id: string)
    ensures Locate(f, id) == None <==> id !in Ids(f)
    ensures Locate(f, id).Some? ==> FirstMatch(f, id, Locate(f, id).value)
  {
    SearchSpec(f, id, 0);
    assert f[0..] == f;
    if Locate(f, id).Some? {
      FirstFromParts(f, id, Locate(f, id).value);
    }
  }

  function FindParentAndIndex(rules: seq<Rule>, id: string): (r: Option<ParentIndex>)
    ensures r == None <==> id !in Ids(rules)
    ensures r.Some? ==>
      var siblings := if r.value.parent == None then rules else r.value.parent.value.children;
      r.value.index < |siblings| && siblings[r.value.index].id == id
    ensures r.Some? ==> Locate(rules, id).Some?
    ensures r.Some? ==>
      var pl := Locate(rules, id).value;
      && FirstMatch(rules, id, pl)
      && r.value.index == pl.index && r.value.parent == ParentOf(rules, pl.at)
  {
    LocateSpec(rules, id);
    match Locate(rules, id)
    case None => None
    case Some(pl) =>
      if pl.at != [] then PathParent(rules, pl.at); Some(ParentIndex(ParentOf(rules, pl.at), pl.index))
      else Some(ParentIndex(None, pl.index))
  }

  function FindParentAndIndexWithSiblings(rules: seq<Rule>, id: string): (r: Option<Found>)
    ensures r == None <==> id !in Ids(rules)
    ensures r.Some? ==> r.value.index < |r.value.siblings| && r.value.siblings[r.value.index].id == id
    ensures r.Some? && r.value.parent == None ==> r.value.siblings == rules
    ensures r.Some? && r.value.parent != None ==> r.value.siblings == r.value.parent.value.children
    ensures r.Some? ==> Locate(rules, id).Some?
    ensures r.Some? ==>
      var pl := Locate(rules, id).value;
      && FirstMatch(rules, id, pl)
      && r.value.index == pl.index && r.value.siblings == ListAt(rules, pl.at)
      && r.value.parent == ParentOf(rules, pl.at) && (r.value.parent == None <==> pl.at == [])
  {
    LocateSpec(rules, id);
    match Locate(rules, id)
    case None => None
    case Some(pl) =>
      if pl.at != [] then PathParent(rules, pl.at); Some(Found(ParentOf(rules, pl.at), pl.index, ListAt(rules, pl.at)))
      else Some(Found(None, pl.index, rules))
  }

  function FindParentAndIndexWithGrandparent(rules: seq<Rule>, id: string): (r: Option<Lineage>)
    ensures r == None <==> id !in Ids(rules)
    ensures r.Some? ==> (r.value.parent == None <==> r.value.parentSiblings == None)
    ensures r.Some? && r.value.parent == None ==>
      r.value.grandparent == None && r.value.index < |rules| && rules[r.value.index].id == id
    ensures r.Some? && r.value.parent != None ==>
      var parent := r.value.parent.value;
      && r.value.index < |parent.children| && parent.children[r.value.index].id == id
      && parent in r.value.parentSiblings.value
      && r.value.parentSiblings.value == (if r.value.grandparent == None then rules else r.value.grandparent.value.children)
    ensures r.Some? ==> Locate(rules, id).Some?
    ensures r.Some? ==>
      var pl := Locate(rules, id).value;
      && FirstMatch(rules, id, pl)
      && r.value.index == pl.index && r.value.parent == ParentOf(rules, pl.at)
      && (pl.at != [] ==>
            var up := pl.at[..|pl.at| - 1];
            ValidList(rules, up) && r.value.grandparent == ParentOf(rules, up)
            && r.value.parentSiblings == Some(ListAt(rules, up)))
  {
    LocateSpec(rules, id);
    match Locate(rules, id)
    case None => None
    case Some(pl) =>
      if pl.at == [] then Some(Lineage(None, pl.index, None, None))
      else
        var q := pl.at;
        var up := q[..|q| - 1];
        PathParent(rules, q);
        if up != [] then PathParent(rules, up); Some(Lineage(ParentOf(rules, q), pl.index, ParentOf(rules, up), Some(ListAt(rules, up))))
        else Some(Lineage(ParentOf(rules, q), pl.index, None, Some(rules)))
  }

  // ---------------------------------------------------------------------------
  // updateRules

  /** `updateRules`: every node with the id is replaced by `updater` of it (and its
      subtree is not searched further); every other node keeps its fields and has its
      children updated the same way. */
  function UpdateRules(rules: seq<Rule>, id: string, updater: Rule -> Rule): (r: seq<Rule>)
    ensures |r| == |rules|
    decreases rules
  {
    seq(|rules|, k requires 0 <= k < |rules| =>
      if rules[k].id == id then updater(rules[k])
      else rules[k].(children := UpdateRules(rules[k].children, id, updater)))
  }

  /** A forest without the id is left as it is. */
  lemma {:induction false} UpdateRulesAbsent(rules: seq<Rule>, id: string, updater: Rule -> Rule)
    requires id !in Ids(rules)
    ensures UpdateRules(rules, id, updater) == rules
    decreases rules
  {
    var r := UpdateRules(rules, id, updater);
    forall k | 0 <= k < |rules| ensures r[k] == rules[k] {
      CollectAround(rules, k, IdOf);
      UpdateRulesAbsent(rules[k].children, id, updater);
    }
  }

  /** Roots other than the one at `h` are left alone when the id occurs only there. */
  lemma UpdateRulesElsewhere(f: seq<Rule>, h: nat, id: string, updater: Rule -> Rule)
    requires h < |f| && id !in Ids(f[..h]) && id !in Ids(f[h + 1..])
    ensures forall k :: 0 <= k < |f| && k != h ==> UpdateRules(f, id, updater)[k] == f[k]
  {
    var r := UpdateRules(f, id, updater);
    forall k | 0 <= k < |f| && k != h ensures r[k] == f[k] {
      var others := if k < h then f[..h] else f[h + 1..];
      var j := if k < h then k else k - h - 1;
      assert others[j] == f[k];
      CollectAround(others, j, IdOf);
      UpdateRulesAbsent(f[k].children, id, updater);
    }
  }

  /** With distinct ids, `updateRules` replaces the one node with the id and nothing else. */
  lemma {:induction false} UpdateRulesAt(f: seq<Rule>, pl: Place, updater: Rule -> Rule)
    requires DistinctIds(f) && ValidPlace(f, pl)
    ensures UpdateRules(f, NodeAt(f, pl).id, updater) == ReplaceNode(f, pl, updater(NodeAt(f, pl)))
    decreases |pl.at|
  {
    var id := NodeAt(f, pl).id;
    var h := Head(pl);
    var r := UpdateRules(f, id, updater);
    var g := ReplaceNode(f, pl, updater(NodeAt(f, pl)));
    DistinctIdsAround(f, h);
    if pl.at != [] {
      PlaceUnder(f, h, Tail(pl));
      assert Place([h] + Tail(pl).at, pl.index) == pl;
      NodeAtInIds(f[h].children, Tail(pl));
      UpdateRulesAt(f[h].children, Tail(pl), updater);
      assert r[h] == g[h];
    } else {
      assert r[h] == g[h];
    }
    UpdateRulesElsewhere(f, h, id, updater);
    assert |r| == |g|;
    assert forall k :: 0 <= k < |f| ==> r[k] == g[k];
  }
}
