/**
 * The generic dependency tree. A `TreeNode` object is modelled as a position in an arena: the
 * tree keeps one sequence of nodes, and a node refers to its parent, its children and the
 * entries of its search index by position. Position 0 is the node the tree was created with.
 */
module Resolver {
  import opened Wrappers

  /** One tree node: its content, its parent (`None` for a root), its children and its search index. */
  datatype Node<T> = Node(data: T, parent: Option<nat>, children: seq<nat>, index: seq<nat>)

  /** A parent always sits before its child. */
  ghost predicate ParentsBefore<T>(nodes: seq<Node<T>>)
  {
    forall m :: 0 <= m < |nodes| && nodes[m].parent.Some? ==> nodes[m].parent.value < m
  }

  /** Every listed child sits after its parent and points back to it. */
  ghost predicate ChildrenLinked<T>(nodes: seq<Node<T>>)
  {
    forall m, k :: 0 <= m < |nodes| && 0 <= k < |nodes[m].children| ==>
      m < nodes[m].children[k] < |nodes| && nodes[nodes[m].children[k]].parent == Some(m)
  }

  /** No child is listed twice. */
  ghost predicate ChildrenDistinct<T>(nodes: seq<Node<T>>)
  {
    forall m, i, j :: 0 <= m < |nodes| && 0 <= i < j < |nodes[m].children| ==>
      nodes[m].children[i] != nodes[m].children[j]
  }

  ghost predicate WellFormed<T>(nodes: seq<Node<T>>)
  {
    ParentsBefore(nodes) && ChildrenLinked(nodes) && ChildrenDistinct(nodes)
  }

  predicate Distinct(s: seq<nat>)
  {
    forall i, j :: 0 <= i < j < |s| ==> s[i] != s[j]
  }

  /** `getLevel`: 0 for a root, one more than the parent's level otherwise. */
  function Level<T>(nodes: seq<Node<T>>, m: nat): (r: nat)
    requires ParentsBefore(nodes) && m < |nodes|
    ensures r == 0 <==> nodes[m].parent.None?
    ensures r <= m
    decreases m
  {
    if nodes[m].parent.None? then 0 else Level(nodes, nodes[m].parent.value) + 1
  }

  /** `a` is `m` or one of the nodes met when walking up the parent pointers from `m`. */
  predicate AncestorOrSelf<T>(nodes: seq<Node<T>>, a: nat, m: nat)
    requires ParentsBefore(nodes) && m < |nodes|
    decreases m
  {
    a == m || (nodes[m].parent.Some? && AncestorOrSelf(nodes, a, nodes[m].parent.value))
  }

  /** The nodes reachable from `n` through children lists, in pre-order (children in list order), `n` excluded. */
  function Below<T>(nodes: seq<Node<T>>, n: nat): seq<nat>
    requires ChildrenLinked(nodes) && n < |nodes|
    decreases |nodes| - n, 1
  {
    BelowAll(nodes, n, nodes[n].children)
  }

  /** Each of `kids` (children of `n`) followed by the nodes below it, in order. */
  function BelowAll<T>(nodes: seq<Node<T>>, n: nat, kids: seq<nat>): seq<nat>
    requires ChildrenLinked(nodes) && n < |nodes|
    requires forall k :: 0 <= k < |kids| ==> n < kids[k] < |nodes|
    decreases |nodes| - n, 0, |kids|
  {
    if kids == [] then []
    else
      var last := kids[|kids| - 1];
      BelowAll(nodes, n, kids[..|kids| - 1]) + [last] + Below(nodes, last)
  }

  lemma BelowAllAppend<T>(nodes: seq<Node<T>>, n: nat, kids: seq<nat>, c: nat)
    requires ChildrenLinked(nodes) && n < |nodes| && n < c < |nodes|
    requires forall k :: 0 <= k < |kids| ==> n < kids[k] < |nodes|
    ensures BelowAll(nodes, n, kids + [c]) == BelowAll(nodes, n, kids) + [c] + Below(nodes, c)
  {
    assert (kids + [c])[..|kids|] == kids;
  }

  lemma {:induction false} AncestorIsBefore<T>(nodes: seq<Node<T>>, a: nat, m: nat)
    requires ParentsBefore(nodes) && m < |nodes| && AncestorOrSelf(nodes, a, m)
    ensures a <= m
    decreases m
  {
    if a != m {
      AncestorIsBefore(nodes, a, nodes[m].parent.value);
    }
  }

  lemma {:induction false} AncestorTransitive<T>(nodes: seq<Node<T>>, a: nat, b: nat, m: nat)
    requires ParentsBefore(nodes) && b < |nodes| && m < |nodes|
    requires AncestorOrSelf(nodes, a, b) && AncestorOrSelf(nodes, b, m)
    ensures AncestorOrSelf(nodes, a, m)
    decreases m
  {
    if b != m {
      AncestorTransitive(nodes, a, b, nodes[m].parent.value);
    }
  }

  /** The ancestors of a node form a chain: of two of them, the earlier is an ancestor of the later. */
  lemma {:induction false} AncestorsLinear<T>(nodes: seq<Node<T>>, a: nat, b: nat, m: nat)
    requires ParentsBefore(nodes) && m < |nodes| && a <= b
    requires AncestorOrSelf(nodes, a, m) && AncestorOrSelf(nodes, b, m)
    ensures b < |nodes| && AncestorOrSelf(nodes, a, b)
    decreases m
  {
    AncestorIsBefore(nodes, b, m);
    if b != m {
      AncestorIsBefore(nodes, a, m);
      var p := nodes[m].parent.value;
      AncestorsLinear(nodes, a, b, p);
    }
  }

  /** A listed child sits after its parent, inside the arena, and points back to it. */
  lemma ChildLinked<T>(nodes: seq<Node<T>>, n: nat, c: nat)
    requires ChildrenLinked(nodes) && n < |nodes| && c in nodes[n].children
    ensures n < c < |nodes| && nodes[c].parent == Some(n)
  {
    var k :| 0 <= k < |nodes[n].children| && nodes[n].children[k] == c;
  }

  lemma ChildrenAreDistinct<T>(nodes: seq<Node<T>>, n: nat)
    requires ChildrenDistinct(nodes) && n < |nodes|
    ensures Distinct(nodes[n].children)
  {
  }

  lemma ChildrenInRange<T>(nodes: seq<Node<T>>, n: nat)
    requires ChildrenLinked(nodes) && n < |nodes|
    ensures forall k :: 0 <= k < |nodes[n].children| ==> n < nodes[n].children[k] < |nodes|
  {
  }

  /** Two children of the same node have disjoint subtrees. */
  lemma SiblingsDisjoint<T>(nodes: seq<Node<T>>, n: nat, c1: nat, c2: nat, x: nat)
    requires WellFormed(nodes) && n < |nodes| && x < |nodes|
    requires c1 in nodes[n].children && c2 in nodes[n].children && c1 != c2
    ensures !(AncestorOrSelf(nodes, c1, x) && AncestorOrSelf(nodes, c2, x))
  {
    ChildLinked(nodes, n, c1);
    ChildLinked(nodes, n, c2);
    if AncestorOrSelf(nodes, c1, x) && AncestorOrSelf(nodes, c2, x) {
      var lo, hi := if c1 < c2 then c1 else c2, if c1 < c2 then c2 else c1;
      AncestorsLinear(nodes, lo, hi, x);
      AncestorIsBefore(nodes, lo, n);
    }
  }

  lemma DistinctConcat(a: seq<nat>, b: seq<nat>)
    requires Distinct(a) && Distinct(b) && forall x :: x in a ==> x !in b
    ensures Distinct(a + b)
  {
    forall i, j | 0 <= i < j < |a + b|
      ensures (a + b)[i] != (a + b)[j]
    {
      if j >= |a| && i < |a| {
        assert (a + b)[i] in a && (a + b)[j] in b;
      }
    }
  }

  /** Everything below `n` lies in the subtree of `n` and after it. */
  lemma {:induction false} BelowDescends<T>(nodes: seq<Node<T>>, n: nat, x: nat)
    requires WellFormed(nodes) && n < |nodes| && x in Below(nodes, n)
    ensures n < x < |nodes| && AncestorOrSelf(nodes, n, x)
    decreases |nodes| - n, 1
  {
    BelowAllDescends(nodes, n, nodes[n].children, x);
  }

  lemma {:induction false} BelowAllDescends<T>(nodes: seq<Node<T>>, n: nat, kids: seq<nat>, x: nat)
    requires WellFormed(nodes) && n < |nodes|
    requires forall k :: 0 <= k < |kids| ==> kids[k] in nodes[n].children
    requires x in BelowAll(nodes, n, kids)
    ensures n < x < |nodes| && AncestorOrSelf(nodes, n, x)
    ensures exists k :: 0 <= k < |kids| && AncestorOrSelf(nodes, kids[k], x)
    decreases |nodes| - n, 0, |kids|
  {
    var last := kids[|kids| - 1];
    var init := kids[..|kids| - 1];
    if x in BelowAll(nodes, n, init) {
      BelowAllDescends(nodes, n, init, x);
      var k :| 0 <= k < |init| && AncestorOrSelf(nodes, init[k], x);
      assert kids[k] == init[k];
    } else if x == last {
      assert AncestorOrSelf(nodes, last, x);
    } else {
      BelowDescends(nodes, last, x);
      AncestorTransitive(nodes, n, last, x);
      assert kids[|kids| - 1] == last;
    }
  }

  /** Pre-order visits every node at most once. */
  lemma {:induction false} BelowDistinct<T>(nodes: seq<Node<T>>, n: nat)
    requires WellFormed(nodes) && n < |nodes|
    ensures Distinct(Below(nodes, n))
    decreases |nodes| - n, 1
  {
    BelowAllDistinct(nodes, n, nodes[n].children);
  }

  lemma {:induction false} BelowAllDistinct<T>(nodes: seq<Node<T>>, n: nat, kids: seq<nat>)
    requires WellFormed(nodes) && n < |nodes|
    requires forall k :: 0 <= k < |kids| ==> kids[k] in nodes[n].children
    requires Distinct(kids)
    ensures Distinct(BelowAll(nodes, n, kids))
    decreases |nodes| - n, 0, |kids|
  {
    if kids != [] {
      var last := kids[|kids| - 1];
      var init := kids[..|kids| - 1];
      var front := BelowAll(nodes, n, init);
      var back := [last] + Below(nodes, last);
      BelowAllDistinct(nodes, n, init);
      BelowDistinct(nodes, last);
      ChildLinked(nodes, n, last);
      forall y | y in back
        ensures y < |nodes| && AncestorOrSelf(nodes, last, y)
      {
        if y != last {
          BelowDescends(nodes, last, y);
        }
      }
      forall x | x in front
        ensures x !in back
      {
        BelowAllDescends(nodes, n, init, x);
        var k :| 0 <= k < |init| && AncestorOrSelf(nodes, init[k], x);
        assert init[k] != last by { assert kids[k] == init[k]; }
        SiblingsDisjoint(nodes, n, init[k], last, x);
      }
      forall y | y in Below(nodes, last)
        ensures y != last
      {
        BelowDescends(nodes, last, y);
      }
      DistinctConcat([last], Below(nodes, last));
      DistinctConcat(front, back);
      assert BelowAll(nodes, n, kids) == front + back;
    }
  }

  /** `List.remove(Object)`: the first occurrence of `x` dropped, `s` itself when `x` does not occur. */
  function RemoveFirst(s: seq<nat>, x: nat): seq<nat>
  {
    if s == [] then []
    else if s[0] == x then s[1..]
    else [s[0]] + RemoveFirst(s[1..], x)
  }

  /** Removing an entry whose first occurrence is at `i` cuts out position `i`. */
  lemma {:induction false} RemoveFirstAt(s: seq<nat>, i: nat)
    requires i < |s| && s[i] !in s[..i]
    ensures RemoveFirst(s, s[i]) == s[..i] + s[i + 1..]
  {
    if i > 0 {
      assert s[0] in s[..i];
      assert s[1..][i - 1] == s[i];
      assert s[1..][..i - 1] == s[..i][1..];
      RemoveFirstAt(s[1..], i - 1);
      assert s[..i] == [s[0]] + s[1..][..i - 1];
      assert s[i + 1..] == s[1..][i..];
    }
  }

  /** Removing an absent entry changes nothing. */
  lemma {:induction false} RemoveFirstAbsent(s: seq<nat>, x: nat)
    requires x !in s
    ensures RemoveFirst(s, x) == s
  {
    if s != [] {
      assert s[0] != x;
      assert x !in s[1..];
      RemoveFirstAbsent(s[1..], x);
    }
  }

  /** Dropping one entry of a list without repetition keeps exactly the other entries. */
  lemma RemoveFirstDistinct(s: seq<nat>, x: nat)
    requires Distinct(s)
    ensures Distinct(RemoveFirst(s, x))
    ensures forall y :: y in RemoveFirst(s, x) <==> y in s && y != x
  {
    if x in s {
      var i :| 0 <= i < |s| && s[i] == x;
      assert x !in s[..i];
      RemoveFirstAt(s, i);
      CutDistinct(s, i);
      CutMembers(s, i);
    } else {
      RemoveFirstAbsent(s, x);
    }
  }

  /** Cutting position `i` out of a list without repetition leaves one without repetition. */
  lemma CutDistinct(s: seq<nat>, i: nat)
    requires Distinct(s) && i < |s|
    ensures Distinct(s[..i] + s[i + 1..])
  {
    var r := s[..i] + s[i + 1..];
    forall a, b | 0 <= a < b < |r|
      ensures r[a] != r[b]
    {
      var a', b' := if a < i then a else a + 1, if b < i then b else b + 1;
      assert r[a] == s[a'] && r[b] == s[b'];
    }
  }

  /** Cutting position `i` out of a list without repetition removes exactly `s[i]`. */
  lemma CutMembers(s: seq<nat>, i: nat)
    requires Distinct(s) && i < |s|
    ensures forall y :: y in s[..i] + s[i + 1..] <==> y in s && y != s[i]
  {
    var r := s[..i] + s[i + 1..];
    forall y | y in s && y != s[i]
      ensures y in r
    {
      var k :| 0 <= k < |s| && s[k] == y;
      if k < i { assert r[k] == y; } else { assert r[k - 1] == y; }
    }
    forall y | y in r
      ensures y in s && y != s[i]
    {
      var k :| 0 <= k < |r| && r[k] == y;
      var k' := if k < i then k else k + 1;
      assert s[k'] == y;
    }
  }

  /** A generic tree; `nodes[0]` is the node the tree was constructed with. */
  class Tree<T> {
    var nodes: seq<Node<T>>

    ghost predicate Valid()
      reads this
    {
      && |nodes| > 0
      && nodes[0].parent.None?
      && (forall m :: 0 < m < |nodes| ==> nodes[m].parent.Some?)
      && WellFormed(nodes)
    }

    /** A fresh node is a root and a leaf, and its search index holds exactly itself. */
    constructor (data: T)
      ensures Valid()
      ensures nodes == [Node(data, None, [], [0])]
    {
      nodes := [Node(data, None, [], [0])];
    }

    /** `isRoot`: the node has no parent; exactly the nodes of level 0. */
    function IsRoot(m: nat): (r: bool)
      reads this
      requires Valid() && m < |nodes|
      ensures r <==> Level(nodes, m) == 0
      ensures r <==> m == 0
    {
      nodes[m].parent.None?
    }

    /** `isLeaf`: the node has no children; exactly the nodes below which nothing is reachable. */
    function IsLeaf(m: nat): (r: bool)
      reads this
      requires Valid() && m < |nodes|
      ensures r <==> Below(nodes, m) == []
    {
      assert nodes[m].children != [] ==> nodes[m].children[|nodes[m].children| - 1] in Below(nodes, m);
      |nodes[m].children| == 0
    }

    /** `addChild`: a new node holding `data`, whose parent is `p`, appended as the last child of `p`. */
    method AddChild(p: nat, data: T) returns (c: nat)
      requires Valid() && p < |nodes|
      modifies this
      ensures Valid()
      ensures c == old(|nodes|) && |nodes| == c + 1
      ensures nodes[c] == Node(data, Some(p), [], [c])
      ensures nodes[p].children == old(nodes[p].children) + [c]
      ensures forall m :: 0 <= m < c && m != p ==> nodes[m].children == old(nodes[m].children)
      ensures forall m :: 0 <= m < c ==> nodes[m].data == old(nodes[m].data) && nodes[m].parent == old(nodes[m].parent)
      ensures forall m :: 0 <= m < c ==>
        nodes[m].index == old(nodes[m].index) + if AncestorOrSelf(old(nodes), m, p) then [c] else []
      ensures Level(nodes, c) == Level(nodes, p) + 1
      ensures forall m :: 0 <= m < c ==> Level(nodes, m) == Level(old(nodes), m)
    {
      c := |nodes|;
      ghost var before := nodes;
      GrowKeepsShape(nodes, p, data);
      nodes := Grow(nodes, p, data);
      ghost var grown := nodes;
      RegisterChildForSearch(p, c);
      RegisterKeepsShape(grown, nodes);
    }

    /** `registerChildForSearch`: appends `c` to the search index of `m` and of every ancestor of `m`. */
    method RegisterChildForSearch(m: nat, c: nat)
      requires ParentsBefore(nodes) && m < |nodes|
      modifies this
      ensures |nodes| == old(|nodes|)
      ensures forall x :: 0 <= x < |nodes| ==>
        nodes[x] == old(nodes[x]).(index := old(nodes[x].index) + if AncestorOrSelf(old(nodes), x, m) then [c] else [])
      decreases m
    {
      nodes := nodes[m := nodes[m].(index := nodes[m].index + [c])];
      if nodes[m].parent.Some? {
        var p := nodes[m].parent.value;
        ghost var mid := nodes;
        assert ParentsBefore(mid);
        RegisterChildForSearch(p, c);
        forall x | 0 <= x < |nodes|
          ensures AncestorOrSelf(mid, x, p) == AncestorOrSelf(old(nodes), x, p)
          ensures AncestorOrSelf(old(nodes), x, m) == (x == m || AncestorOrSelf(old(nodes), x, p))
          ensures x == m ==> !AncestorOrSelf(mid, x, p)
        {
          SameParentsSameAncestry(mid, old(nodes), x, p);
          if AncestorOrSelf(mid, x, p) {
            AncestorIsBefore(mid, x, p);
          }
        }
      }
    }

    /** `removeChild`: drops `c` from the children list of `p` and changes nothing else. */
    method RemoveChild(p: nat, c: nat)
      requires Valid() && p < |nodes|
      modifies this
      ensures Valid()
      ensures nodes == old(nodes[p := nodes[p].(children := RemoveFirst(nodes[p].children, c))])
    {
      RemoveFirstDistinct(nodes[p].children, c);
      RemovingChildKeepsWellFormed(nodes, p, RemoveFirst(nodes[p].children, c));
      nodes := nodes[p := nodes[p].(children := RemoveFirst(nodes[p].children, c))];
    }
  }

  /** The arena after `new TreeNode(data)` has been attached as the last child of `p`. */
  function Grow<T>(nodes: seq<Node<T>>, p: nat, data: T): (r: seq<Node<T>>)
    requires p < |nodes|
    ensures |r| == |nodes| + 1
  {
    var c := |nodes|;
    (nodes + [Node(data, Some(p), [], [c])])[p := nodes[p].(children := nodes[p].children + [c])]
  }

  lemma GrowKeepsShape<T>(nodes: seq<Node<T>>, p: nat, data: T)
    requires WellFormed(nodes) && p < |nodes|
    ensures WellFormed(Grow(nodes, p, data))
    ensures forall m :: 0 <= m < |nodes| ==>
      Level(Grow(nodes, p, data), m) == Level(nodes, m) &&
      AncestorOrSelf(Grow(nodes, p, data), m, p) == AncestorOrSelf(nodes, m, p)
    ensures !AncestorOrSelf(Grow(nodes, p, data), |nodes|, p)
  {
    var c := |nodes|;
    var grown := Grow(nodes, p, data);
    assert forall m :: 0 <= m < c ==> grown[m].parent == nodes[m].parent;
    assert forall m, k :: 0 <= m < c && 0 <= k < |nodes[m].children| ==> nodes[m].children[k] < c;
    forall m | 0 <= m < c
      ensures Level(grown, m) == Level(nodes, m)
      ensures AncestorOrSelf(grown, m, p) == AncestorOrSelf(nodes, m, p)
    {
      SameParentsSameAncestry(grown, nodes, m, p);
      SameParentsSameAncestry(grown, nodes, m, m);
    }
    if AncestorOrSelf(grown, c, p) {
      AncestorIsBefore(grown, c, p);
    }
  }

  /** Index registration changes no parent pointer, hence no level. */
  lemma RegisterKeepsShape<T>(grown: seq<Node<T>>, after: seq<Node<T>>)
    requires WellFormed(grown) && |grown| == |after|
    requires forall x :: 0 <= x < |after| ==> after[x].parent == grown[x].parent && after[x].children == grown[x].children
    ensures WellFormed(after)
    ensures forall m :: 0 <= m < |after| ==> Level(after, m) == Level(grown, m)
  {
    assert ParentsBefore(after);
    forall m | 0 <= m < |after|
      ensures Level(after, m) == Level(grown, m)
    {
      SameParentsSameAncestry(after, grown, m, m);
    }
  }

  /** Replacing a children list by a distinct sub-collection of it keeps the arena well formed. */
  lemma RemovingChildKeepsWellFormed<T>(nodes: seq<Node<T>>, p: nat, kids: seq<nat>)
    requires WellFormed(nodes) && p < |nodes|
    requires Distinct(kids) && forall y :: y in kids ==> y in nodes[p].children
    ensures WellFormed(nodes[p := nodes[p].(children := kids)])
  {
    var after := nodes[p := nodes[p].(children := kids)];
    forall m, k | 0 <= m < |after| && 0 <= k < |after[m].children|
      ensures m < after[m].children[k] < |after| && after[after[m].children[k]].parent == Some(m)
    {
      if m == p {
        assert kids[k] in kids;
        ChildLinked(nodes, p, kids[k]);
      }
    }
  }

  /** Ancestry and level of `m` depend only on the parent pointers at and before `m`. */
  lemma {:induction false} SameParentsSameAncestry<T>(a: seq<Node<T>>, b: seq<Node<T>>, x: nat, m: nat)
    requires ParentsBefore(a) && ParentsBefore(b) && m < |a| && m < |b|
    requires forall i :: 0 <= i <= m ==> a[i].parent == b[i].parent
    ensures AncestorOrSelf(a, x, m) == AncestorOrSelf(b, x, m)
    ensures Level(a, m) == Level(b, m)
    decreases m
  {
    if a[m].parent.Some? {
      SameParentsSameAncestry(a, b, x, a[m].parent.value);
    }
  }
}
