/**
 * `removeFilteredArtifacts`: drops, below a node, every child whose artifact is not to be
 * included, and descends only into the children it keeps.
 */
module Prune {
  import opened Wrappers
  import opened Maven
  import opened Model
  import opened Resolver

  type Nodes = seq<Node<AyoyArtifact?>>

  /** Whether a node holding `a` survives; `shouldInclude` stands for `shouldArtifactBeIncluded`. */
  predicate Keep(shouldInclude: Artifact -> bool, a: AyoyArtifact?)
  {
    a != null && shouldInclude(a.artifact)
  }

  /** The entries of `kids` whose node survives, in their order. */
  function Filter(nodes: Nodes, shouldInclude: Artifact -> bool, kids: seq<nat>): seq<nat>
    requires forall k :: 0 <= k < |kids| ==> kids[k] < |nodes|
  {
    if kids == [] then []
    else
      var last := kids[|kids| - 1];
      Filter(nodes, shouldInclude, kids[..|kids| - 1]) + if Keep(shouldInclude, nodes[last].data) then [last] else []
  }

  /** The filter keeps exactly the surviving entries, never adds one, and never grows the list. */
  lemma {:induction false} FilterMembers(nodes: Nodes, shouldInclude: Artifact -> bool, kids: seq<nat>)
    requires forall k :: 0 <= k < |kids| ==> kids[k] < |nodes|
    ensures forall x :: x in Filter(nodes, shouldInclude, kids) <==> x in kids && Keep(shouldInclude, nodes[x].data)
    ensures |Filter(nodes, shouldInclude, kids)| <= |kids|
  {
    if kids != [] {
      var init := kids[..|kids| - 1];
      FilterMembers(nodes, shouldInclude, init);
      assert kids == init + [kids[|kids| - 1]];
    }
  }

  lemma FilterAppend(nodes: Nodes, shouldInclude: Artifact -> bool, kids: seq<nat>, k: nat)
    requires forall i :: 0 <= i < |kids| ==> kids[i] < |nodes|
    requires k < |nodes|
    ensures Filter(nodes, shouldInclude, kids + [k]) ==
      Filter(nodes, shouldInclude, kids) + if Keep(shouldInclude, nodes[k].data) then [k] else []
  {
    assert (kids + [k])[..|kids|] == kids;
  }

  /**
   * The nodes the pass started at `n` reaches: `n` itself, and every surviving child
   * of a reached node, found through the children lists as they were before the pass.
   */
  ghost predicate Visited(nodes: Nodes, shouldInclude: Artifact -> bool, n: nat, m: nat)
    requires ParentsBefore(nodes) && m < |nodes|
    decreases m
  {
    || m == n
    || (&& nodes[m].parent.Some?
        && m in nodes[nodes[m].parent.value].children
        && Keep(shouldInclude, nodes[m].data)
        && Visited(nodes, shouldInclude, n, nodes[m].parent.value))
  }

  /** The children list of `m` once the pass started at `n` is over. */
  ghost function Pruned(nodes: Nodes, shouldInclude: Artifact -> bool, n: nat, m: nat): seq<nat>
    requires WellFormed(nodes) && m < |nodes|
  {
    if Visited(nodes, shouldInclude, n, m) then Filter(nodes, shouldInclude, nodes[m].children) else nodes[m].children
  }

  /** The child of `n` through which `m`, a proper descendant of `n`, hangs below `n`. */
  function Top(nodes: Nodes, n: nat, m: nat): (t: nat)
    requires ParentsBefore(nodes) && m < |nodes| && m != n && AncestorOrSelf(nodes, n, m)
    ensures n < t <= m && nodes[t].parent == Some(n) && AncestorOrSelf(nodes, t, m)
    decreases m
  {
    var p := nodes[m].parent.value;
    if p == n then
      AncestorIsBefore(nodes, n, m);
      m
    else
      var t := Top(nodes, n, p);
      t
  }

  /** The reached nodes all lie in the subtree of the starting node. */
  lemma {:induction false} VisitedDescends(nodes: Nodes, shouldInclude: Artifact -> bool, n: nat, m: nat)
    requires ParentsBefore(nodes) && m < |nodes| && Visited(nodes, shouldInclude, n, m)
    ensures AncestorOrSelf(nodes, n, m)
    decreases m
  {
    if m != n {
      VisitedDescends(nodes, shouldInclude, n, nodes[m].parent.value);
    }
  }

  /** A reached node is reached through every ancestor between it and the start. */
  lemma {:induction false} VisitedThrough(nodes: Nodes, shouldInclude: Artifact -> bool, n: nat, c: nat, m: nat)
    requires ParentsBefore(nodes) && m < |nodes| && n <= c < |nodes|
    requires Visited(nodes, shouldInclude, n, m) && AncestorOrSelf(nodes, c, m)
    ensures Visited(nodes, shouldInclude, n, c)
    decreases m
  {
    if m != c {
      if m == n {
        AncestorIsBefore(nodes, c, m);
      } else {
        VisitedThrough(nodes, shouldInclude, n, c, nodes[m].parent.value);
      }
    }
  }

  /** Below `n`, a node is reached exactly when it is reached from its top child and that child survives. */
  lemma {:induction false} VisitedSplit(nodes: Nodes, shouldInclude: Artifact -> bool, n: nat, m: nat)
    requires WellFormed(nodes) && m < |nodes| && m != n && AncestorOrSelf(nodes, n, m)
    ensures Visited(nodes, shouldInclude, n, m) <==>
      var t := Top(nodes, n, m);
      t in nodes[n].children && Keep(shouldInclude, nodes[t].data) && Visited(nodes, shouldInclude, t, m)
    decreases m
  {
    var p := nodes[m].parent.value;
    if p != n {
      VisitedSplit(nodes, shouldInclude, n, p);
    }
  }

  /** Reaching from `c` reads only parents, contents and the children lists inside the subtree of `c`. */
  lemma {:induction false} VisitedFrame(a: Nodes, b: Nodes, shouldInclude: Artifact -> bool, c: nat, m: nat)
    requires WellFormed(a) && WellFormed(b) && |a| == |b| && m < |a|
    requires forall x :: 0 <= x < |a| ==> a[x].parent == b[x].parent && a[x].data == b[x].data
    requires forall x :: 0 <= x < |a| && AncestorOrSelf(a, c, x) ==> a[x].children == b[x].children
    ensures Visited(a, shouldInclude, c, m) == Visited(b, shouldInclude, c, m)
    decreases m
  {
    if m != c && a[m].parent.Some? {
      var p := a[m].parent.value;
      VisitedFrame(a, b, shouldInclude, c, p);
      if Visited(a, shouldInclude, c, p) {
        VisitedDescends(a, shouldInclude, c, p);
      }
    }
  }

  /** `m` (not `n`) has been handled once the pass at `n` has dealt with the children in `done`. */
  ghost predicate Handled(nodes: Nodes, shouldInclude: Artifact -> bool, n: nat, done: seq<nat>, m: nat)
    requires WellFormed(nodes) && m < |nodes|
  {
    && m != n
    && AncestorOrSelf(nodes, n, m)
    && Top(nodes, n, m) in done
    && Keep(shouldInclude, nodes[Top(nodes, n, m)].data)
    && Visited(nodes, shouldInclude, Top(nodes, n, m), m)
  }

  /** When every child of `n` has been dealt with, the handled nodes are the reached ones. */
  lemma HandledAll(nodes: Nodes, shouldInclude: Artifact -> bool, n: nat, m: nat)
    requires WellFormed(nodes) && n < |nodes| && m < |nodes| && m != n
    ensures Handled(nodes, shouldInclude, n, nodes[n].children, m) <==> Visited(nodes, shouldInclude, n, m)
  {
    if AncestorOrSelf(nodes, n, m) {
      VisitedSplit(nodes, shouldInclude, n, m);
    } else if Visited(nodes, shouldInclude, n, m) {
      VisitedDescends(nodes, shouldInclude, n, m);
    }
  }

  /** Dealing with one more child `c` of `n` handles exactly what is reached from `c`, if `c` survives. */
  lemma HandledStep(nodes: Nodes, shouldInclude: Artifact -> bool, n: nat, done: seq<nat>, c: nat, m: nat)
    requires WellFormed(nodes) && n < |nodes| && m < |nodes| && m != n
    requires c in nodes[n].children
    ensures Handled(nodes, shouldInclude, n, done + [c], m) <==>
      Handled(nodes, shouldInclude, n, done, m) || (Keep(shouldInclude, nodes[c].data) && Visited(nodes, shouldInclude, c, m))
  {
    ChildLinked(nodes, n, c);
    if Visited(nodes, shouldInclude, c, m) {
      VisitedDescends(nodes, shouldInclude, c, m);
      AncestorTransitive(nodes, n, c, m);
      TopOfChild(nodes, n, c, m);
    }
  }

  /** Below a child `c` of `n`, the top child is `c`. */
  lemma {:induction false} TopOfChild(nodes: Nodes, n: nat, c: nat, m: nat)
    requires WellFormed(nodes) && m < |nodes| && c < |nodes| && nodes[c].parent == Some(n)
    requires AncestorOrSelf(nodes, c, m)
    ensures m != n && AncestorOrSelf(nodes, n, m) && Top(nodes, n, m) == c
    decreases m
  {
    AncestorIsBefore(nodes, c, m);
    AncestorTransitive(nodes, n, c, m);
    if m != c {
      TopOfChild(nodes, n, c, nodes[m].parent.value);
    }
  }

  /** `b` differs from `a` at most in children lists. */
  ghost predicate OnlyChildrenChange(a: Nodes, b: Nodes)
  {
    && |a| == |b|
    && forall m {:trigger b[m]} :: 0 <= m < |a| ==>
         b[m].data == a[m].data && b[m].parent == a[m].parent && b[m].index == a[m].index
  }

  lemma OnlyChildrenChangeTrans(a: Nodes, b: Nodes, c: Nodes)
    requires OnlyChildrenChange(a, b) && OnlyChildrenChange(b, c)
    ensures OnlyChildrenChange(a, c)
  {
  }

  /** Node `m`, unless it is `n`, is pruned as far as the children of `n` in `done` go. */
  ghost predicate PrunedBelowAt(orig: Nodes, cur: Nodes, shouldInclude: Artifact -> bool, n: nat, done: seq<nat>, m: nat)
    requires WellFormed(orig) && |cur| == |orig| && m < |orig|
  {
    m != n ==>
      cur[m].children ==
        if Handled(orig, shouldInclude, n, done, m) then Filter(orig, shouldInclude, orig[m].children) else orig[m].children
  }

  ghost predicate PrunedBelow(orig: Nodes, cur: Nodes, shouldInclude: Artifact -> bool, n: nat, done: seq<nat>)
    requires WellFormed(orig) && |cur| == |orig|
  {
    forall m :: 0 <= m < |orig| ==> PrunedBelowAt(orig, cur, shouldInclude, n, done, m)
  }

  /** Node `m` of `cur` has the children list the pass at `n` leaves on `orig`. */
  ghost predicate PrunedFromAt(orig: Nodes, cur: Nodes, shouldInclude: Artifact -> bool, n: nat, m: nat)
    requires WellFormed(orig) && |cur| == |orig| && m < |orig|
  {
    cur[m].children == Pruned(orig, shouldInclude, n, m)
  }

  ghost predicate PrunedFrom(orig: Nodes, cur: Nodes, shouldInclude: Artifact -> bool, n: nat)
    requires WellFormed(orig) && |cur| == |orig|
  {
    forall m :: 0 <= m < |orig| ==> PrunedFromAt(orig, cur, shouldInclude, n, m)
  }

  /**
   * The state of the loop at `n` once it has dealt with the first `j` children of `n`:
   * the children list of `n` is the surviving examined children followed by the unexamined
   * ones, `i` is the position of the first unexamined one, and the subtrees of the examined
   * surviving children are pruned.
   */
  ghost predicate Progress(orig: Nodes, cur: Nodes, shouldInclude: Artifact -> bool, n: nat, j: nat, i: int)
    requires WellFormed(orig) && n < |orig|
  {
    ChildrenInRange(orig, n);
    && OnlyChildrenChange(orig, cur)
    && j <= |orig[n].children|
    && cur[n].children == Filter(orig, shouldInclude, orig[n].children[..j]) + orig[n].children[j..]
    && i == |Filter(orig, shouldInclude, orig[n].children[..j])|
    && PrunedBelow(orig, cur, shouldInclude, n, orig[n].children[..j])
  }

  /**
   * The pass over the subtree of `n`: every reached node loses its non-surviving children,
   * every other node keeps its children list, and nothing else changes.
   */
  method RemoveFilteredArtifacts(tree: Tree<AyoyArtifact?>, n: nat, shouldInclude: Artifact -> bool)
    requires tree.Valid() && n < |tree.nodes|
    requires forall m :: 0 < m < |tree.nodes| ==> tree.nodes[m].data != null
    modifies tree
    ensures tree.Valid() && OnlyChildrenChange(old(tree.nodes), tree.nodes)
    ensures PrunedFrom(old(tree.nodes), tree.nodes, shouldInclude, n)
    decreases |tree.nodes| - n, 1
  {
    ghost var orig := tree.nodes;
    ghost var j := 0;
    ProgressStart(orig, shouldInclude, n);
    var i: int := 0;
    while i < |tree.nodes[n].children|
      invariant tree.Valid() && Progress(orig, tree.nodes, shouldInclude, n, j, i)
      decreases |orig[n].children| - j
    {
      i := RemoveFilteredChild(tree, n, shouldInclude, orig, j, i);
      i := i + 1;
      j := j + 1;
    }
    LoopDone(orig, tree.nodes, shouldInclude, n, j);
  }

  /**
   * One round of the loop at `n`: the child at position `i` is removed when it does not
   * survive, and the pass descends into it otherwise; `r` is `i` stepped back over a removal.
   */
  method RemoveFilteredChild(tree: Tree<AyoyArtifact?>, n: nat, shouldInclude: Artifact -> bool,
                             ghost orig: Nodes, ghost j: nat, i: int) returns (r: int)
    requires tree.Valid() && WellFormed(orig) && n < |orig|
    requires forall m :: 0 < m < |orig| ==> orig[m].data != null
    requires Progress(orig, tree.nodes, shouldInclude, n, j, i) && 0 <= i < |tree.nodes[n].children|
    modifies tree
    ensures tree.Valid() && Progress(orig, tree.nodes, shouldInclude, n, j + 1, r + 1)
    decreases |tree.nodes| - n, 0
  {
    var childNode := tree.nodes[n].children[i];
    ChildLinked(tree.nodes, n, childNode);
    ghost var before := tree.nodes;
    assert before[childNode].data == orig[childNode].data;
    if !shouldInclude(tree.nodes[childNode].data.artifact) {
      tree.RemoveChild(n, childNode);
      ProgressDrop(orig, before, tree.nodes, shouldInclude, n, j, i);
      r := i - 1;
    } else {
      RemoveFilteredArtifacts(tree, childNode, shouldInclude);
      ProgressKeep(orig, before, tree.nodes, shouldInclude, n, j, i);
      r := i;
    }
  }

  lemma ProgressStart(orig: Nodes, shouldInclude: Artifact -> bool, n: nat)
    requires WellFormed(orig) && n < |orig|
    ensures Progress(orig, orig, shouldInclude, n, 0, 0)
  {
    ChildrenInRange(orig, n);
    assert orig[n].children[..0] == [];
    assert orig[n].children[0..] == orig[n].children;
    forall m | 0 <= m < |orig|
      ensures PrunedBelowAt(orig, orig, shouldInclude, n, [], m)
    {
    }
  }

  /** The frontier of the loop is the next unexamined child. */
  lemma ProgressFrontier(orig: Nodes, cur: Nodes, shouldInclude: Artifact -> bool, n: nat, j: nat, i: int)
    requires WellFormed(orig) && n < |orig| && Progress(orig, cur, shouldInclude, n, j, i)
    requires 0 <= i < |cur[n].children|
    ensures j < |orig[n].children| && cur[n].children[i] == orig[n].children[j]
  {
  }

  lemma ProgressDrop(orig: Nodes, before: Nodes, after: Nodes, shouldInclude: Artifact -> bool, n: nat, j: nat, i: int)
    requires WellFormed(orig) && WellFormed(before) && n < |orig|
    requires Progress(orig, before, shouldInclude, n, j, i) && 0 <= i < |before[n].children|
    requires !Keep(shouldInclude, orig[before[n].children[i]].data)
    requires after == before[n := before[n].(children := RemoveFirst(before[n].children, before[n].children[i]))]
    ensures Progress(orig, after, shouldInclude, n, j + 1, i)
  {
    ProgressFrontier(orig, before, shouldInclude, n, j, i);
    ChildrenInRange(orig, n);
    ChildrenAreDistinct(before, n);
    DropChildren(orig, shouldInclude, orig[n].children, j, before[n].children);
    DropStep(orig, before, after, shouldInclude, n, orig[n].children, j);
  }

  lemma ProgressKeep(orig: Nodes, before: Nodes, after: Nodes, shouldInclude: Artifact -> bool, n: nat, j: nat, i: int)
    requires WellFormed(orig) && WellFormed(before) && n < |orig|
    requires Progress(orig, before, shouldInclude, n, j, i) && 0 <= i < |before[n].children|
    requires Keep(shouldInclude, orig[before[n].children[i]].data)
    requires OnlyChildrenChange(before, after) && PrunedFrom(before, after, shouldInclude, before[n].children[i])
    ensures Progress(orig, after, shouldInclude, n, j + 1, i + 1)
  {
    ProgressFrontier(orig, before, shouldInclude, n, j, i);
    ChildrenInRange(orig, n);
    KeepChildren(orig, shouldInclude, orig[n].children, j, before[n].children);
    KeepStep(orig, before, after, shouldInclude, n, orig[n].children, j);
    OnlyChildrenChangeTrans(orig, before, after);
  }

  lemma LoopDone(orig: Nodes, cur: Nodes, shouldInclude: Artifact -> bool, n: nat, j: nat)
    requires WellFormed(orig) && n < |orig| && OnlyChildrenChange(orig, cur) && j <= |orig[n].children|
    requires cur[n].children == Filter(orig, shouldInclude, orig[n].children[..j]) + orig[n].children[j..]
    requires |cur[n].children| <= |Filter(orig, shouldInclude, orig[n].children[..j])|
    requires PrunedBelow(orig, cur, shouldInclude, n, orig[n].children[..j])
    ensures PrunedFrom(orig, cur, shouldInclude, n)
  {
    var kids := orig[n].children;
    assert j == |kids|;
    assert kids[..j] == kids;
    forall m | 0 <= m < |orig|
      ensures PrunedFromAt(orig, cur, shouldInclude, n, m)
    {
      if m != n {
        assert PrunedBelowAt(orig, cur, shouldInclude, n, kids, m);
        HandledAll(orig, shouldInclude, n, m);
      }
    }
  }

  /** Removing the child at the frontier of the loop drops it from the not-yet-examined part. */
  lemma DropChildren(orig: Nodes, shouldInclude: Artifact -> bool, kids: seq<nat>, j: nat, cur: seq<nat>)
    requires j < |kids| && forall k :: 0 <= k < |kids| ==> kids[k] < |orig|
    requires Distinct(cur) && cur == Filter(orig, shouldInclude, kids[..j]) + kids[j..]
    requires !Keep(shouldInclude, orig[kids[j]].data)
    ensures RemoveFirst(cur, kids[j]) == Filter(orig, shouldInclude, kids[..j + 1]) + kids[j + 1..]
    ensures |Filter(orig, shouldInclude, kids[..j + 1])| == |Filter(orig, shouldInclude, kids[..j])|
  {
    var f := Filter(orig, shouldInclude, kids[..j]);
    assert kids[..j + 1] == kids[..j] + [kids[j]];
    FilterAppend(orig, shouldInclude, kids[..j], kids[j]);
    assert cur[|f|] == kids[j];
    assert kids[j] !in cur[..|f|] by {
      assert forall a :: 0 <= a < |f| ==> cur[..|f|][a] == cur[a] != cur[|f|];
    }
    RemoveFirstAt(cur, |f|);
    assert cur[..|f|] == f;
    assert cur[|f| + 1..] == kids[j + 1..];
  }

  /** Keeping the child at the frontier of the loop moves it to the examined part. */
  lemma KeepChildren(orig: Nodes, shouldInclude: Artifact -> bool, kids: seq<nat>, j: nat, cur: seq<nat>)
    requires j < |kids| && forall k :: 0 <= k < |kids| ==> kids[k] < |orig|
    requires cur == Filter(orig, shouldInclude, kids[..j]) + kids[j..]
    requires Keep(shouldInclude, orig[kids[j]].data)
    ensures cur == Filter(orig, shouldInclude, kids[..j + 1]) + kids[j + 1..]
    ensures |Filter(orig, shouldInclude, kids[..j + 1])| == |Filter(orig, shouldInclude, kids[..j])| + 1
  {
    assert kids[..j + 1] == kids[..j] + [kids[j]];
    FilterAppend(orig, shouldInclude, kids[..j], kids[j]);
    assert kids[j..] == [kids[j]] + kids[j + 1..];
  }

  /** The loop step that removes `kids[j]`: no node other than `n` becomes handled. */
  lemma DropStep(orig: Nodes, before: Nodes, after: Nodes, shouldInclude: Artifact -> bool, n: nat, kids: seq<nat>, j: nat)
    requires WellFormed(orig) && n < |orig| && OnlyChildrenChange(orig, before)
    requires kids == orig[n].children && j < |kids|
    requires PrunedBelow(orig, before, shouldInclude, n, kids[..j])
    requires !Keep(shouldInclude, orig[kids[j]].data)
    requires |after| == |before| && after[n] == before[n].(children := after[n].children)
    requires forall m :: 0 <= m < |after| && m != n ==> after[m] == before[m]
    ensures OnlyChildrenChange(orig, after)
    ensures PrunedBelow(orig, after, shouldInclude, n, kids[..j + 1])
  {
    assert kids[..j + 1] == kids[..j] + [kids[j]];
    assert kids[j] in orig[n].children;
    var done := kids[..j + 1];
    forall m | 0 <= m < |orig|
      ensures PrunedBelowAt(orig, after, shouldInclude, n, done, m)
    {
      assert PrunedBelowAt(orig, before, shouldInclude, n, kids[..j], m);
      if m != n {
        HandledStep(orig, shouldInclude, n, kids[..j], kids[j], m);
      }
    }
  }

  /** The loop step that keeps `kids[j]` and prunes below it. */
  lemma KeepStep(orig: Nodes, before: Nodes, after: Nodes, shouldInclude: Artifact -> bool, n: nat, kids: seq<nat>, j: nat)
    requires WellFormed(orig) && WellFormed(before) && n < |orig| && OnlyChildrenChange(orig, before)
    requires kids == orig[n].children && j < |kids|
    requires Keep(shouldInclude, orig[kids[j]].data)
    requires PrunedBelow(orig, before, shouldInclude, n, kids[..j])
    requires OnlyChildrenChange(before, after) && PrunedFrom(before, after, shouldInclude, kids[j])
    ensures OnlyChildrenChange(orig, after)
    ensures PrunedBelow(orig, after, shouldInclude, n, kids[..j + 1])
    ensures after[n].children == before[n].children
  {
    var c := kids[j];
    ChildLinked(orig, n, c);
    assert kids[..j + 1] == kids[..j] + [c];
    var done := kids[..j + 1];
    forall m | 0 <= m < |orig|
      ensures PrunedBelowAt(orig, after, shouldInclude, n, done, m)
    {
      if m != n {
        assert PrunedBelowAt(orig, before, shouldInclude, n, kids[..j], m);
        assert PrunedFromAt(before, after, shouldInclude, c, m);
        KeepUntouched(orig, before, shouldInclude, n, kids, j, m);
        HandledStep(orig, shouldInclude, n, kids[..j], c, m);
      }
    }
    assert PrunedFromAt(before, after, shouldInclude, c, n);
    if Visited(before, shouldInclude, c, n) {
      VisitedDescends(before, shouldInclude, c, n);
      AncestorIsBefore(before, c, n);
    }
  }

  /**
   * Before the loop at `n` examines its child `c`, the subtree of `c` is untouched,
   * so the pass from `c` sees node `m` as it was.
   */
  lemma KeepUntouched(orig: Nodes, before: Nodes, shouldInclude: Artifact -> bool, n: nat, kids: seq<nat>, j: nat, m: nat)
    requires WellFormed(orig) && WellFormed(before) && n < |orig| && OnlyChildrenChange(orig, before)
    requires kids == orig[n].children && j < |kids| && m < |orig| && m != n
    requires PrunedBelow(orig, before, shouldInclude, n, kids[..j])
    ensures Visited(before, shouldInclude, kids[j], m) == Visited(orig, shouldInclude, kids[j], m)
    ensures Filter(before, shouldInclude, before[m].children) == Filter(orig, shouldInclude, before[m].children)
    ensures Visited(orig, shouldInclude, kids[j], m) ==>
      !Handled(orig, shouldInclude, n, kids[..j], m) && before[m].children == orig[m].children
  {
    var c := kids[j];
    ChildLinked(orig, n, c);
    assert c !in kids[..j] by {
      assert Distinct(kids);
    }
    forall x | 0 <= x < |orig| && AncestorOrSelf(orig, c, x)
      ensures orig[x].children == before[x].children
    {
      TopOfChild(orig, n, c, x);
      assert PrunedBelowAt(orig, before, shouldInclude, n, kids[..j], x);
    }
    VisitedFrame(orig, before, shouldInclude, c, m);
    FilterSameData(orig, before, shouldInclude, before[m].children);
    if Visited(orig, shouldInclude, c, m) {
      VisitedDescends(orig, shouldInclude, c, m);
      TopOfChild(orig, n, c, m);
    }
  }

  /** The filter reads only the contents of the nodes. */
  lemma {:induction false} FilterSameData(a: Nodes, b: Nodes, shouldInclude: Artifact -> bool, kids: seq<nat>)
    requires |a| == |b| && forall x :: 0 <= x < |a| ==> a[x].data == b[x].data
    requires forall k :: 0 <= k < |kids| ==> kids[k] < |a|
    ensures Filter(a, shouldInclude, kids) == Filter(b, shouldInclude, kids)
  {
    if kids != [] {
      FilterSameData(a, b, shouldInclude, kids[..|kids| - 1]);
    }
  }

  /** Splitting the list splits the filter: survivors keep their relative order. */
  lemma {:induction false} FilterConcat(nodes: Nodes, shouldInclude: Artifact -> bool, xs: seq<nat>, ys: seq<nat>)
    requires forall k :: 0 <= k < |xs| ==> xs[k] < |nodes|
    requires forall k :: 0 <= k < |ys| ==> ys[k] < |nodes|
    ensures Filter(nodes, shouldInclude, xs + ys) == Filter(nodes, shouldInclude, xs) + Filter(nodes, shouldInclude, ys)
    decreases |ys|
  {
    if ys == [] {
      assert xs + ys == xs;
    } else {
      var init, last := ys[..|ys| - 1], ys[|ys| - 1];
      assert (xs + ys)[..|xs + ys| - 1] == xs + init;
      FilterConcat(nodes, shouldInclude, xs, init);
    }
  }

  /** After the pass, every child listed under a reached node holds an artifact to be included. */
  lemma SurvivorsIncluded(nodes: Nodes, shouldInclude: Artifact -> bool, n: nat, m: nat, c: nat)
    requires WellFormed(nodes) && m < |nodes| && Visited(nodes, shouldInclude, n, m)
    requires c in Pruned(nodes, shouldInclude, n, m)
    ensures c in nodes[m].children && c < |nodes|
    ensures nodes[c].data != null && shouldInclude(nodes[c].data.artifact)
  {
    ChildrenInRange(nodes, m);
    FilterMembers(nodes, shouldInclude, nodes[m].children);
  }

  /** After the pass, a reached node keeps exactly its children that hold an artifact to be included. */
  lemma SurvivorsExactly(nodes: Nodes, shouldInclude: Artifact -> bool, n: nat, m: nat, c: nat)
    requires WellFormed(nodes) && m < |nodes| && Visited(nodes, shouldInclude, n, m)
    requires c in nodes[m].children && Keep(shouldInclude, nodes[c].data)
    ensures c in Pruned(nodes, shouldInclude, n, m)
  {
    ChildrenInRange(nodes, m);
    FilterMembers(nodes, shouldInclude, nodes[m].children);
  }

  /**
   * The pass never descends below a removed child: when child `c` is dropped, nothing in its
   * subtree is reached, and every node there keeps its children list.
   */
  lemma DroppedNotVisited(nodes: Nodes, shouldInclude: Artifact -> bool, n: nat, c: nat, m: nat)
    requires WellFormed(nodes) && n < |nodes| && c < |nodes| && m < |nodes|
    requires c != n && !AncestorOrSelf(nodes, c, n) && !Keep(shouldInclude, nodes[c].data)
    requires AncestorOrSelf(nodes, c, m)
    ensures !Visited(nodes, shouldInclude, n, m)
    ensures Pruned(nodes, shouldInclude, n, m) == nodes[m].children
  {
    if Visited(nodes, shouldInclude, n, m) {
      VisitedDescends(nodes, shouldInclude, n, m);
      if c < n {
        AncestorsLinear(nodes, c, n, m);
      } else {
        AncestorsLinear(nodes, n, c, m);
        VisitedThrough(nodes, shouldInclude, n, c, m);
      }
      assert false;
    }
  }

  /** Nodes outside the subtree of the starting node are never touched. */
  lemma OutsideUntouched(nodes: Nodes, shouldInclude: Artifact -> bool, n: nat, m: nat)
    requires WellFormed(nodes) && m < |nodes| && !AncestorOrSelf(nodes, n, m)
    ensures Pruned(nodes, shouldInclude, n, m) == nodes[m].children
  {
    if Visited(nodes, shouldInclude, n, m) {
      VisitedDescends(nodes, shouldInclude, n, m);
    }
  }
}
