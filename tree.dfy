/** The filterable tree of src/tree.rs: an immutable labelled node with an
    ordered list of children and a cached count of all its descendants, a
    fuzzy filter that derives a pruned, annotated copy of a tree for a query,
    and a lookup of an id path below a node. */
module Tree {
  import opened Wrappers

  /** Character positions of the node text that the fuzzy matcher matched. */
  type Indices = seq<nat>

  /** The fuzzy matcher `ismatch(haystack, needle)`: the matched positions of
      `haystack` when it matches `needle`, None when it does not. It wraps a
      foreign library, so the model takes it as a parameter. */
  type Matcher = (string, string) -> Option<Indices>

  /** A node. The fields are private in the source, so every node is built by
      `New` (or by `Filter`, which calls `New`). */
  datatype TreeNode<Id> = TreeNode(
    id: Id,
    text: string,
    children: seq<TreeNode<Id>>,
    recursiveNumChildren: nat,
    matchingIndices: Indices)

  // ---------------------------------------------------------------------
  // Construction and the cached descendant count
  // ---------------------------------------------------------------------

  /** Sum of the cached counts of a list of nodes. */
  function SumCounts<Id>(cs: seq<TreeNode<Id>>): nat
  {
    if cs == [] then 0 else cs[0].recursiveNumChildren + SumCounts(cs[1..])
  }

  /** `TreeNode::new`: stores id, text and children as given, caches the
      number of children plus the children's own cached counts, and starts
      with no matching indices. */
  function New<Id>(id: Id, text: string, children: seq<TreeNode<Id>>): TreeNode<Id>
  {
    TreeNode(id, text, children, |children| + SumCounts(children), [])
  }

  /** Every node of `t` caches the count that `New` computes. */
  predicate WellFormed<Id>(t: TreeNode<Id>)
    decreases t
  {
    && t.recursiveNumChildren == |t.children| + SumCounts(t.children)
    && forall i :: 0 <= i < |t.children| ==> WellFormed(t.children[i])
  }

  /** Reference count: the number of nodes of `t`, itself included. */
  function NodeCount<Id>(t: TreeNode<Id>): nat
    decreases t
  {
    1 + NodeCountSeq(t.children)
  }

  /** The number of nodes of all trees in `cs`. */
  function NodeCountSeq<Id>(cs: seq<TreeNode<Id>>): nat
    decreases cs
  {
    if cs == [] then 0 else NodeCount(cs[0]) + NodeCountSeq(cs[1..])
  }

  /** A node built by `New` from well-formed children stores its arguments,
      is itself well formed, and its cached count is the number of nodes
      below it. */
  lemma {:induction false} NewCountsDescendants<Id>(id: Id, text: string, children: seq<TreeNode<Id>>)
    requires forall i :: 0 <= i < |children| ==> WellFormed(children[i])
    ensures New(id, text, children).id == id && New(id, text, children).text == text
    ensures New(id, text, children).children == children
    ensures New(id, text, children).matchingIndices == []
    ensures WellFormed(New(id, text, children))
    ensures New(id, text, children).recursiveNumChildren == NodeCountSeq(children)
  {
    SumCountsIsNodeCount(children);
  }

  /** For well-formed trees, the cached count of a node is the number of
      its descendants. */
  lemma {:induction false} CachedCountIsDescendants<Id>(t: TreeNode<Id>)
    requires WellFormed(t)
    ensures t.recursiveNumChildren == NodeCount(t) - 1
  {
    SumCountsIsNodeCount(t.children);
  }

  lemma {:induction false} SumCountsIsNodeCount<Id>(cs: seq<TreeNode<Id>>)
    requires forall i :: 0 <= i < |cs| ==> WellFormed(cs[i])
    ensures |cs| + SumCounts(cs) == NodeCountSeq(cs)
    decreases cs
  {
    if cs != [] {
      CachedCountIsDescendants(cs[0]);
      SumCountsIsNodeCount(cs[1..]);
    }
  }

  // ---------------------------------------------------------------------
  // Filtering
  // ---------------------------------------------------------------------

  /** `TreeNode::filter`: the children are filtered first; the node survives
      when its own text matches the query or at least one child survived, and
      the copy records the matcher's indices (none when only a child matched). */
  function Filter<Id>(t: TreeNode<Id>, query: string, ismatch: Matcher): Option<TreeNode<Id>>
    decreases t
  {
    var indices := ismatch(t.text, query);
    var matchingChildren := FilterChildren(t.children, query, ismatch);
    if indices.Some? || matchingChildren != [] then
      Some(New(t.id, t.text, matchingChildren).(matchingIndices := indices.GetOr([])))
    else
      None
  }

  /** The `filter_map` over the children: the surviving filtered copies, in order. */
  function FilterChildren<Id>(cs: seq<TreeNode<Id>>, query: string, ismatch: Matcher): seq<TreeNode<Id>>
    decreases cs
  {
    if cs == [] then []
    else match Filter(cs[0], query, ismatch)
      case Some(c) => [c] + FilterChildren(cs[1..], query, ismatch)
      case None => FilterChildren(cs[1..], query, ismatch)
  }

  /** Survival rule: a node survives iff its own text matches or at least
      one of its children survives. */
  lemma FilterSurvives<Id>(t: TreeNode<Id>, query: string, ismatch: Matcher)
    ensures Filter(t, query, ismatch).Some? <==>
      || ismatch(t.text, query).Some?
      || exists i :: 0 <= i < |t.children| && Filter(t.children[i], query, ismatch).Some?
  {
    FilterChildrenEmpty(t.children, query, ismatch);
  }

  lemma {:induction false} FilterChildrenEmpty<Id>(cs: seq<TreeNode<Id>>, query: string, ismatch: Matcher)
    ensures FilterChildren(cs, query, ismatch) == [] <==>
      forall i :: 0 <= i < |cs| ==> Filter(cs[i], query, ismatch).None?
    decreases cs
  {
    if cs != [] {
      FilterChildrenEmpty(cs[1..], query, ismatch);
      assert forall i :: 1 <= i < |cs| ==> cs[i] == cs[1..][i - 1];
    }
  }

  /** A filtered copy keeps the source's id and text, has the surviving
      filtered children as its children, records the matcher's indices on a
      direct match and none otherwise, and keeps a consistent count. */
  lemma {:induction false} FilterFields<Id>(t: TreeNode<Id>, query: string, ismatch: Matcher)
    requires Filter(t, query, ismatch).Some?
    ensures Filter(t, query, ismatch).value.id == t.id
    ensures Filter(t, query, ismatch).value.text == t.text
    ensures Filter(t, query, ismatch).value.children == FilterChildren(t.children, query, ismatch)
    ensures Filter(t, query, ismatch).value.matchingIndices ==
      if ismatch(t.text, query).Some? then ismatch(t.text, query).value else []
    ensures WellFormed(Filter(t, query, ismatch).value)
    decreases t
  {
    FilterChildrenWellFormed(t.children, query, ismatch);
  }

  lemma {:induction false} FilterChildrenWellFormed<Id>(cs: seq<TreeNode<Id>>, query: string, ismatch: Matcher)
    ensures forall j :: 0 <= j < |FilterChildren(cs, query, ismatch)| ==>
      WellFormed(FilterChildren(cs, query, ismatch)[j])
    decreases cs
  {
    if cs != [] {
      FilterChildrenWellFormed(cs[1..], query, ismatch);
      if Filter(cs[0], query, ismatch).Some? {
        FilterFields(cs[0], query, ismatch);
      }
    }
  }

  /** Positions in `cs` of the children that survive the filter, ascending. */
  ghost function SurvivorPositions<Id>(cs: seq<TreeNode<Id>>, query: string, ismatch: Matcher): seq<nat>
    decreases cs
  {
    if cs == [] then []
    else
      var rest := Shift(SurvivorPositions(cs[1..], query, ismatch));
      if Filter(cs[0], query, ismatch).Some? then [0] + rest else rest
  }

  /** Every position moved one to the right. */
  ghost function Shift(ps: seq<nat>): (r: seq<nat>)
    ensures |r| == |ps| && forall k :: 0 <= k < |ps| ==> r[k] == ps[k] + 1
  {
    seq(|ps|, k requires 0 <= k < |ps| => ps[k] + 1)
  }

  /** The children of a filtered node are exactly the filtered copies of the
      surviving source children, in their original order: the k-th kept child
      is the copy of the source child at the k-th surviving position, the
      positions ascend, and every surviving position is listed. */
  lemma FilterChildrenInOrder<Id>(cs: seq<TreeNode<Id>>, query: string, ismatch: Matcher)
    ensures |SurvivorPositions(cs, query, ismatch)| == |FilterChildren(cs, query, ismatch)|
    ensures forall k :: 0 <= k < |SurvivorPositions(cs, query, ismatch)| ==>
      && SurvivorPositions(cs, query, ismatch)[k] < |cs|
      && Filter(cs[SurvivorPositions(cs, query, ismatch)[k]], query, ismatch)
           == Some(FilterChildren(cs, query, ismatch)[k])
    ensures forall k, l :: 0 <= k < l < |SurvivorPositions(cs, query, ismatch)| ==>
      SurvivorPositions(cs, query, ismatch)[k] < SurvivorPositions(cs, query, ismatch)[l]
    ensures forall i :: 0 <= i < |cs| && Filter(cs[i], query, ismatch).Some? ==>
      i in SurvivorPositions(cs, query, ismatch)
  {
    SurvivorsMatchKept(cs, query, ismatch);
    SurvivorsAscend(cs, query, ismatch);
    SurvivorsComplete(cs, query, ismatch);
  }

  lemma {:induction false} SurvivorsMatchKept<Id>(cs: seq<TreeNode<Id>>, query: string, ismatch: Matcher)
    ensures |SurvivorPositions(cs, query, ismatch)| == |FilterChildren(cs, query, ismatch)|
    ensures forall k :: 0 <= k < |SurvivorPositions(cs, query, ismatch)| ==>
      && SurvivorPositions(cs, query, ismatch)[k] < |cs|
      && Filter(cs[SurvivorPositions(cs, query, ismatch)[k]], query, ismatch)
           == Some(FilterChildren(cs, query, ismatch)[k])
    decreases cs
  {
    if cs != [] {
      var tail := cs[1..];
      SurvivorsMatchKept(tail, query, ismatch);
      var ps := SurvivorPositions(tail, query, ismatch);
      var fs := FilterChildren(tail, query, ismatch);
      var sh := Shift(ps);
      forall k | 0 <= k < |sh|
        ensures sh[k] < |cs| && Filter(cs[sh[k]], query, ismatch) == Some(fs[k])
      {
        assert cs[sh[k]] == tail[ps[k]];
      }
    }
  }

  lemma {:induction false} SurvivorsAscend<Id>(cs: seq<TreeNode<Id>>, query: string, ismatch: Matcher)
    ensures forall k :: 0 <= k < |SurvivorPositions(cs, query, ismatch)| ==>
      SurvivorPositions(cs, query, ismatch)[k] < |cs|
    ensures forall k, l :: 0 <= k < l < |SurvivorPositions(cs, query, ismatch)| ==>
      SurvivorPositions(cs, query, ismatch)[k] < SurvivorPositions(cs, query, ismatch)[l]
    decreases cs
  {
    if cs != [] {
      SurvivorsAscend(cs[1..], query, ismatch);
    }
  }

  lemma {:induction false} SurvivorsComplete<Id>(cs: seq<TreeNode<Id>>, query: string, ismatch: Matcher)
    ensures forall i :: 0 <= i < |cs| && Filter(cs[i], query, ismatch).Some? ==>
      i in SurvivorPositions(cs, query, ismatch)
    decreases cs
  {
    if cs != [] {
      var tail := cs[1..];
      SurvivorsComplete(tail, query, ismatch);
      var ps := SurvivorPositions(tail, query, ismatch);
      var sh := Shift(ps);
      forall i | 1 <= i < |cs| && Filter(cs[i], query, ismatch).Some?
        ensures i in SurvivorPositions(cs, query, ismatch)
      {
        assert cs[i] == tail[i - 1];
        var k :| 0 <= k < |ps| && ps[k] == i - 1;
        assert sh[k] == i;
      }
    }
  }

  /** A node in a filtered view that survives: it matches directly or has a
      surviving child, and it carries the matcher's indices for its text. */
  ghost predicate Pruned<Id>(r: TreeNode<Id>, query: string, ismatch: Matcher)
    decreases r
  {
    && (ismatch(r.text, query).Some? || r.children != [])
    && r.matchingIndices == ismatch(r.text, query).GetOr([])
    && forall j :: 0 <= j < |r.children| ==> Pruned(r.children[j], query, ismatch)
  }

  /** Every node of a filtered view obeys the survival rule and carries its
      own match annotation; no other node appears. */
  lemma {:induction false} FilterIsPruned<Id>(t: TreeNode<Id>, query: string, ismatch: Matcher)
    requires Filter(t, query, ismatch).Some?
    ensures Pruned(Filter(t, query, ismatch).value, query, ismatch)
    decreases t
  {
    FilterChildrenPruned(t.children, query, ismatch);
  }

  lemma {:induction false} FilterChildrenPruned<Id>(cs: seq<TreeNode<Id>>, query: string, ismatch: Matcher)
    ensures forall j :: 0 <= j < |FilterChildren(cs, query, ismatch)| ==>
      Pruned(FilterChildren(cs, query, ismatch)[j], query, ismatch)
    decreases cs
  {
    if cs != [] {
      FilterChildrenPruned(cs[1..], query, ismatch);
      if Filter(cs[0], query, ismatch).Some? {
        FilterIsPruned(cs[0], query, ismatch);
      }
    }
  }

  /** The filtered copy of a tree has at most as many nodes as the source. */
  lemma {:induction false} FilterShrinks<Id>(t: TreeNode<Id>, query: string, ismatch: Matcher)
    requires Filter(t, query, ismatch).Some?
    ensures NodeCount(Filter(t, query, ismatch).value) <= NodeCount(t)
    decreases t
  {
    FilterChildrenShrink(t.children, query, ismatch);
  }

  lemma {:induction false} FilterChildrenShrink<Id>(cs: seq<TreeNode<Id>>, query: string, ismatch: Matcher)
    ensures NodeCountSeq(FilterChildren(cs, query, ismatch)) <= NodeCountSeq(cs)
    decreases cs
  {
    if cs != [] {
      FilterChildrenShrink(cs[1..], query, ismatch);
      if Filter(cs[0], query, ismatch).Some? {
        FilterShrinks(cs[0], query, ismatch);
      }
    }
  }

  /** The cached count of a filtered copy never exceeds the source's. */
  lemma FilterCountBound<Id>(t: TreeNode<Id>, query: string, ismatch: Matcher)
    requires WellFormed(t) && Filter(t, query, ismatch).Some?
    ensures Filter(t, query, ismatch).value.recursiveNumChildren <= t.recursiveNumChildren
  {
    FilterFields(t, query, ismatch);
    FilterShrinks(t, query, ismatch);
    CachedCountIsDescendants(t);
    CachedCountIsDescendants(Filter(t, query, ismatch).value);
  }

  /** Same ids and texts, node for node, in the same shape. */
  ghost predicate SameShape<Id>(a: TreeNode<Id>, b: TreeNode<Id>)
    decreases a
  {
    && a.id == b.id && a.text == b.text
    && |a.children| == |b.children|
    && forall i :: 0 <= i < |a.children| ==> SameShape(a.children[i], b.children[i])
  }

  /** When the matcher accepts every text, the filter keeps the whole tree. */
  lemma {:induction false} FilterAcceptAll<Id>(t: TreeNode<Id>, query: string, ismatch: Matcher)
    requires forall s :: ismatch(s, query).Some?
    ensures Filter(t, query, ismatch).Some?
    ensures SameShape(Filter(t, query, ismatch).value, t)
    decreases t
  {
    FilterChildrenAcceptAll(t.children, query, ismatch);
  }

  lemma {:induction false} FilterChildrenAcceptAll<Id>(cs: seq<TreeNode<Id>>, query: string, ismatch: Matcher)
    requires forall s :: ismatch(s, query).Some?
    ensures |FilterChildren(cs, query, ismatch)| == |cs|
    ensures forall i :: 0 <= i < |cs| ==>
      Filter(cs[i], query, ismatch) == Some(FilterChildren(cs, query, ismatch)[i])
      && SameShape(FilterChildren(cs, query, ismatch)[i], cs[i])
    decreases cs
  {
    if cs != [] {
      FilterAcceptAll(cs[0], query, ismatch);
      FilterChildrenAcceptAll(cs[1..], query, ismatch);
      assert forall i :: 1 <= i < |cs| ==> cs[i] == cs[1..][i - 1];
    }
  }

  // ---------------------------------------------------------------------
  // Path lookup
  // ---------------------------------------------------------------------

  /** `contains_path`: the empty path is contained; otherwise some child has
      the path's first id and contains the rest. The node's own id is never
      compared. */
  predicate ContainsPath<Id(==)>(t: TreeNode<Id>, path: seq<Id>)
    decreases t
  {
    path == [] || AnyChildContains(t.children, path)
  }

  /** The `any` over the children of `contains_path`. */
  predicate AnyChildContains<Id(==)>(cs: seq<TreeNode<Id>>, path: seq<Id>)
    requires path != []
    decreases cs
  {
    && cs != []
    && ((cs[0].id == path[0] && ContainsPath(cs[0], path[1..])) || AnyChildContains(cs[1..], path))
  }

  /** Level-by-level reading of `contains_path`. */
  lemma ContainsPathStep<Id>(t: TreeNode<Id>, path: seq<Id>, otherId: Id)
    ensures ContainsPath(t, [])
    ensures path != [] ==>
      (ContainsPath(t, path) <==>
       exists i :: 0 <= i < |t.children| && t.children[i].id == path[0]
                   && ContainsPath(t.children[i], path[1..]))
    ensures ContainsPath(t.(id := otherId), path) == ContainsPath(t, path)
  {
    if path != [] {
      AnyChildContainsIff(t.children, path);
    }
  }

  lemma {:induction false} AnyChildContainsIff<Id>(cs: seq<TreeNode<Id>>, path: seq<Id>)
    requires path != []
    ensures AnyChildContains(cs, path) <==>
      exists i :: 0 <= i < |cs| && cs[i].id == path[0] && ContainsPath(cs[i], path[1..])
    decreases cs
  {
    if cs != [] {
      AnyChildContainsIff(cs[1..], path);
      assert forall i :: 1 <= i < |cs| ==> cs[i] == cs[1..][i - 1];
    }
  }

  /** The filter result is a sub-tree of the source: any id path contained in
      a filtered copy is contained in the source. */
  lemma {:induction false} FilterContainsPath<Id>(t: TreeNode<Id>, query: string, ismatch: Matcher, path: seq<Id>)
    requires Filter(t, query, ismatch).Some?
    requires ContainsPath(Filter(t, query, ismatch).value, path)
    ensures ContainsPath(t, path)
    decreases t
  {
    if path != [] {
      var r := Filter(t, query, ismatch).value;
      FilterFields(t, query, ismatch);
      ContainsPathStep(r, path, r.id);
      var j :| 0 <= j < |r.children| && r.children[j].id == path[0]
               && ContainsPath(r.children[j], path[1..]);
      FilterChildrenInOrder(t.children, query, ismatch);
      var i := SurvivorPositions(t.children, query, ismatch)[j];
      assert Filter(t.children[i], query, ismatch) == Some(r.children[j]);
      FilterFields(t.children[i], query, ismatch);
      FilterContainsPath(t.children[i], query, ismatch, path[1..]);
      ContainsPathStep(t, path, t.id);
    }
  }
}
