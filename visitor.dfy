/**
 * `LicenseDependencyNodeVisitor`: a cursor over a tree of artifacts that turns Maven's
 * pre-order (`visit`) and post-order (`endVisit`) notifications into tree nodes.
 */
module Visitor {
  import opened Wrappers
  import opened Maven
  import opened Model
  import opened Resolver

  /** Every node from position `n` on holds an artifact. */
  predicate Populated(nodes: seq<Node<AyoyArtifact?>>, n: nat)
  {
    forall m :: n <= m < |nodes| ==> nodes[m].data != null
  }

  /** The dependency graph that the subtree at `n` records. */
  function Shape(nodes: seq<Node<AyoyArtifact?>>, n: nat): DependencyNode
    requires ChildrenLinked(nodes) && n < |nodes| && Populated(nodes, n)
    decreases |nodes| - n, 1
  {
    DependencyNode(nodes[n].data.artifact, ShapeAll(nodes, n, nodes[n].children))
  }

  function ShapeAll(nodes: seq<Node<AyoyArtifact?>>, n: nat, kids: seq<nat>): seq<DependencyNode>
    requires ChildrenLinked(nodes) && n < |nodes| && Populated(nodes, n)
    requires forall k :: 0 <= k < |kids| ==> n < kids[k] < |nodes|
    decreases |nodes| - n, 0, |kids|
  {
    if kids == [] then []
    else ShapeAll(nodes, n, kids[..|kids| - 1]) + [Shape(nodes, kids[|kids| - 1])]
  }

  /** The recorded graph depends only on the artifacts and children lists inside the subtree. */
  lemma {:induction false} ShapeFrame(a: seq<Node<AyoyArtifact?>>, b: seq<Node<AyoyArtifact?>>, n: nat)
    requires ChildrenLinked(a) && ChildrenLinked(b) && n < |a| <= |b| && Populated(a, n) && Populated(b, n)
    requires forall m :: n <= m < |a| ==> b[m].data == a[m].data && b[m].children == a[m].children
    ensures Shape(a, n) == Shape(b, n)
    decreases |a| - n, 1
  {
    ShapeAllFrame(a, b, n, a[n].children);
  }

  lemma {:induction false} ShapeAllFrame(a: seq<Node<AyoyArtifact?>>, b: seq<Node<AyoyArtifact?>>, n: nat, kids: seq<nat>)
    requires ChildrenLinked(a) && ChildrenLinked(b) && n < |a| <= |b| && Populated(a, n) && Populated(b, n)
    requires forall m :: n < m < |a| ==> b[m].data == a[m].data && b[m].children == a[m].children
    requires forall k :: 0 <= k < |kids| ==> n < kids[k] < |a|
    ensures ShapeAll(a, n, kids) == ShapeAll(b, n, kids)
    decreases |a| - n, 0, |kids|
  {
    if kids != [] {
      ShapeAllFrame(a, b, n, kids[..|kids| - 1]);
      ShapeFrame(a, b, kids[|kids| - 1]);
    }
  }

  lemma ShapeAllAppend(nodes: seq<Node<AyoyArtifact?>>, n: nat, kids: seq<nat>, k: nat)
    requires ChildrenLinked(nodes) && n < |nodes| && Populated(nodes, n) && n < k < |nodes|
    requires forall i :: 0 <= i < |kids| ==> n < kids[i] < |nodes|
    ensures ShapeAll(nodes, n, kids + [k]) == ShapeAll(nodes, n, kids) + [Shape(nodes, k)]
  {
    assert (kids + [k])[..|kids|] == kids;
  }

  /**
   * `b` is `a` with nodes appended: every node of `a` keeps its content and parent,
   * and every node other than `cur` keeps its children.
   */
  ghost predicate Extends<T>(a: seq<Node<T>>, b: seq<Node<T>>, cur: nat)
  {
    && |a| <= |b|
    && (forall m :: 0 <= m < |a| ==> b[m].data == a[m].data && b[m].parent == a[m].parent)
    && (forall m :: 0 <= m < |a| && m != cur ==> b[m].children == a[m].children)
  }

  lemma ExtendsTrans<T>(a: seq<Node<T>>, b: seq<Node<T>>, c: seq<Node<T>>, cur: nat, cur': nat)
    requires Extends(a, b, cur) && Extends(b, c, cur') && (cur' == cur || |a| <= cur')
    ensures Extends(a, c, cur)
    ensures cur < |a| && cur' != cur ==> c[cur].children == b[cur].children
  {
  }

  /** One more child walked below `c`: the record of `c` grows by the graph of that child. */
  lemma SizeAllAppend(ds: seq<DependencyNode>, d: DependencyNode)
    ensures SizeAll(ds + [d]) == SizeAll(ds) + Size(d)
  {
    assert (ds + [d])[..|ds|] == ds;
  }

  /** A prefix one longer: its last entry appended, one more graph counted. */
  lemma PrefixStep(ds: seq<DependencyNode>, i: nat)
    requires i < |ds|
    ensures ds[..i + 1] == ds[..i] + [ds[i]]
    ensures SizeAll(ds[..i + 1]) == SizeAll(ds[..i]) + Size(ds[i])
  {
    assert ds[..i + 1][..i] == ds[..i];
  }

  lemma ShapeStep(before: seq<Node<AyoyArtifact?>>, after: seq<Node<AyoyArtifact?>>, c: nat,
                  done: seq<DependencyNode>, child: DependencyNode)
    requires WellFormed(before) && WellFormed(after) && c < |before| && Populated(before, c)
    requires ShapeAll(before, c, before[c].children) == done
    requires Extends(before, after, c) && after[c].children == before[c].children + [|before|]
    requires |before| < |after| && Populated(after, |before|) && Shape(after, |before|) == child
    ensures Populated(after, c)
    ensures ShapeAll(after, c, after[c].children) == done + [child]
  {
    var kids := before[c].children;
    assert forall k :: 0 <= k < |kids| ==> c < kids[k] < |before|;
    ShapeAllFrame(before, after, c, kids);
    ShapeAllAppend(after, c, kids, |before|);
  }

  /**
   * Below node `c` of `start`, the walk has so far recorded the graphs `done`: one new node
   * per walked graph node, appended after `start`, and nothing else of `start` changed.
   */
  ghost predicate Recorded(start: seq<Node<AyoyArtifact?>>, nodes: seq<Node<AyoyArtifact?>>, c: nat, done: seq<DependencyNode>)
  {
    && c < |start| && |nodes| == |start| + SizeAll(done)
    && Extends(start, nodes, c) && WellFormed(nodes) && Populated(nodes, c)
    && ShapeAll(nodes, c, nodes[c].children) == done
  }

  /** Walking one more child graph below `c` records it after the ones already walked. */
  lemma RecordedStep(start: seq<Node<AyoyArtifact?>>, before: seq<Node<AyoyArtifact?>>, after: seq<Node<AyoyArtifact?>>,
                     c: nat, done: seq<DependencyNode>, child: DependencyNode)
    requires Recorded(start, before, c, done) && WellFormed(after)
    requires Extends(before, after, c) && after[c].children == before[c].children + [|before|]
    requires |after| == |before| + Size(child) && Populated(after, |before|) && Shape(after, |before|) == child
    ensures Recorded(start, after, c, done + [child])
  {
    ExtendsTrans(start, before, after, c, c);
    ShapeStep(before, after, c, done, child);
    SizeAllAppend(done, child);
  }

  class LicenseDependencyNodeVisitor {
    const tree: Tree<AyoyArtifact?>
    const root: nat
    var current: nat

    ghost predicate Valid()
      reads this, tree
    {
      tree.Valid() && root < |tree.nodes| && current < |tree.nodes|
    }

    /** The cursor starts on the given node of the tree to populate. */
    constructor (tree: Tree<AyoyArtifact?>, root: nat)
      requires tree.Valid() && root < |tree.nodes|
      ensures Valid() && this.tree == tree && this.root == root && current == root
    {
      this.tree := tree;
      this.root := root;
      current := root;
    }

    /** `visit`: adds one child holding a new artifact for `d` to the cursor node and moves onto it. */
    method Visit(d: DependencyNode) returns (r: bool)
      requires Valid()
      modifies this, tree
      ensures Valid() && r
      ensures current == old(|tree.nodes|) && |tree.nodes| == current + 1
      ensures tree.nodes[current].parent == Some(old(current))
      ensures tree.nodes[current].children == []
      ensures tree.nodes[current].data != null && fresh(tree.nodes[current].data)
      ensures tree.nodes[current].data.artifact == d.artifact
      ensures tree.nodes[current].data.licenses == [] && tree.nodes[current].data.licenseInfos == []
      ensures tree.nodes[old(current)].children == old(tree.nodes[current].children) + [current]
      ensures Extends(old(tree.nodes), tree.nodes, old(current))
    {
      var artifact := new AyoyArtifact(d.artifact);
      current := tree.AddChild(current, artifact);
      r := true;
    }

    /** `endVisit`: moves the cursor to its parent, or back to the starting node when it has none. */
    method EndVisit(d: DependencyNode) returns (r: bool)
      requires Valid()
      modifies this
      ensures Valid() && r
      ensures old(tree.nodes[current].parent).Some? ==> current == old(tree.nodes[current].parent.value)
      ensures old(tree.nodes[current].parent).None? ==> current == root
    {
      current := if tree.nodes[current].parent.Some? then tree.nodes[current].parent.value else root;
      r := true;
    }

    /**
     * How Maven walks a dependency graph with this visitor: `visit`, then every child in order,
     * then `endVisit`. The cursor ends where it started, and the new last child of that node
     * records exactly the graph that was walked.
     */
    method Accept(d: DependencyNode)
      requires Valid()
      modifies this, tree
      ensures Valid() && current == old(current)
      ensures |tree.nodes| == old(|tree.nodes|) + Size(d)
      ensures tree.nodes[current].children == old(tree.nodes[current].children) + [old(|tree.nodes|)]
      ensures Extends(old(tree.nodes), tree.nodes, current)
      ensures Populated(tree.nodes, old(|tree.nodes|))
      ensures forall m :: old(|tree.nodes|) <= m < |tree.nodes| ==> fresh(tree.nodes[m].data)
      ensures Shape(tree.nodes, old(|tree.nodes|)) == d
      decreases d, 1
    {
      var start := current;
      var _ := Visit(d);
      ghost var visited := tree.nodes;
      AcceptChildren(d);
      ExtendsTrans(old(tree.nodes), visited, tree.nodes, start, current);
      var _ := EndVisit(d);
    }

    /** The children of `d` walked in order below the cursor node, which has no children yet. */
    method AcceptChildren(d: DependencyNode)
      requires Valid() && current == |tree.nodes| - 1 && tree.nodes[current].children == []
      requires Populated(tree.nodes, current) && tree.nodes[current].data.artifact == d.artifact
      modifies this, tree
      ensures Valid() && current == old(current)
      ensures |tree.nodes| == old(|tree.nodes|) + SizeAll(d.children)
      ensures Extends(old(tree.nodes), tree.nodes, current)
      ensures Populated(tree.nodes, current)
      ensures forall m :: old(|tree.nodes|) <= m < |tree.nodes| ==> fresh(tree.nodes[m].data)
      ensures Shape(tree.nodes, current) == d
      decreases d, 0
    {
      var c := current;
      var i := 0;
      assert d.children[..0] == [];
      while i < |d.children|
        invariant Valid() && current == c && 0 <= i <= |d.children|
        invariant Recorded(old(tree.nodes), tree.nodes, c, d.children[..i])
        invariant forall m :: old(|tree.nodes|) <= m < |tree.nodes| ==> fresh(tree.nodes[m].data)
      {
        ghost var before := tree.nodes;
        Accept(d.children[i]);
        RecordedStep(old(tree.nodes), before, tree.nodes, c, d.children[..i], d.children[i]);
        PrefixStep(d.children, i);
        i := i + 1;
      }
      assert d.children[..i] == d.children;
    }
  }
}
