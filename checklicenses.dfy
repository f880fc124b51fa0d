/**
 * `checkForLicenses`: the licenses Maven reports for the artifact of every node below a node
 * are appended to that artifact, in pre-order. `getLicenses` is a parameter that gives an
 * artifact's license list, or `None` for `null`, which leaves the artifact as it was.
 */
module CheckLicenses {
  import opened Wrappers
  import opened Maven
  import opened Model
  import opened Resolver
  import opened Classify

  /** The declared licenses of each node's artifact; none for a node without one. */
  function LicensesOf(ds: seq<AyoyArtifact?>): (r: seq<seq<License>>)
    reads Objects(ds)`licenses
    ensures |r| == |ds| && forall m :: 0 <= m < |ds| ==> r[m] == (if ds[m] == null then [] else ds[m].licenses)
    decreases |ds|
  {
    if ds == [] then []
    else
      assert Objects(ds[..|ds| - 1]) <= Objects(ds);
      var last := ds[|ds| - 1];
      LicensesOf(ds[..|ds| - 1]) + [if last == null then [] else last.licenses]
  }

  /** What `addLicenses` appends for the answer of `getLicenses`: nothing for `null`. */
  function Found(licenses: Option<seq<License>>): seq<License>
  {
    if licenses.None? then [] else licenses.value
  }

  /** Node `m` checked: the licenses found for its artifact appended to its own (nothing happens elsewhere). */
  function Visit(nodes: Nodes, get: Artifact -> Option<seq<License>>, st: seq<seq<License>>, m: nat): seq<seq<License>>
  {
    if m < |nodes| && m < |st| && nodes[m].data != null then st[m := st[m] + Found(get(nodes[m].data.artifact))]
    else st
  }

  /** The nodes of `order` checked one after the other. */
  function Pass(nodes: Nodes, get: Artifact -> Option<seq<License>>, st: seq<seq<License>>, order: seq<nat>): (r: seq<seq<License>>)
    ensures |r| == |st|
    decreases |order|
  {
    if order == [] then st
    else Visit(nodes, get, Pass(nodes, get, st, order[..|order| - 1]), order[|order| - 1])
  }

  lemma {:induction false} PassAppend(nodes: Nodes, get: Artifact -> Option<seq<License>>, st: seq<seq<License>>, order: seq<nat>, more: seq<nat>)
    ensures Pass(nodes, get, st, order + more) == Pass(nodes, get, Pass(nodes, get, st, order), more)
    decreases |more|
  {
    if more == [] {
      assert order + more == order;
    } else {
      var init := more[..|more| - 1];
      assert (order + more)[..|order + more| - 1] == order + init;
      PassAppend(nodes, get, st, order, init);
    }
  }

  /** A node the pass does not reach keeps its licenses. */
  lemma {:induction false} PassOutside(nodes: Nodes, get: Artifact -> Option<seq<License>>, st: seq<seq<License>>, order: seq<nat>, m: nat)
    requires m < |st| && m !in order
    ensures Pass(nodes, get, st, order)[m] == st[m]
    decreases |order|
  {
    if order != [] {
      PassOutside(nodes, get, st, order[..|order| - 1], m);
    }
  }

  /** A node the pass reaches once gets the licenses found for its artifact appended, once. */
  lemma {:induction false} PassNode(nodes: Nodes, get: Artifact -> Option<seq<License>>, st: seq<seq<License>>, order: seq<nat>, k: nat)
    requires Distinct(order) && k < |order| && order[k] < |nodes| && |st| == |nodes| && nodes[order[k]].data != null
    ensures Pass(nodes, get, st, order)[order[k]] == st[order[k]] + Found(get(nodes[order[k]].data.artifact))
    decreases |order|
  {
    var init := order[..|order| - 1];
    if k < |order| - 1 {
      assert init[k] == order[k];
      assert Distinct(init);
      PassNode(nodes, get, st, init, k);
    } else {
      PassOutside(nodes, get, st, init, order[k]);
    }
  }

  /**
   * The whole pass from node `n`: exactly the nodes below `n` get the licenses found for their
   * artifact appended, each once, and every other node keeps its licenses.
   */
  lemma EveryNodeBelowOnce(nodes: Nodes, get: Artifact -> Option<seq<License>>, st: seq<seq<License>>, n: nat, m: nat)
    requires WellFormed(nodes) && n < |nodes| && m < |nodes| && |st| == |nodes|
    requires forall x :: 0 < x < |nodes| ==> nodes[x].data != null
    ensures m in Below(nodes, n) ==> n < m && Pass(nodes, get, st, Below(nodes, n))[m] == st[m] + Found(get(nodes[m].data.artifact))
    ensures m !in Below(nodes, n) ==> Pass(nodes, get, st, Below(nodes, n))[m] == st[m]
  {
    var below := Below(nodes, n);
    if m in below {
      var k :| 0 <= k < |below| && below[k] == m;
      BelowDistinct(nodes, n);
      BelowDescends(nodes, n, m);
      PassNode(nodes, get, st, below, k);
    } else {
      PassOutside(nodes, get, st, below, m);
    }
  }

  /** The turn of the `i`-th child in the pass over `n`: the child checked, then everything below it. */
  lemma ChildTurn(nodes: Nodes, get: Artifact -> Option<seq<License>>, n: nat, kids: seq<nat>, i: nat,
                  start: seq<seq<License>>, s1: seq<seq<License>>, s2: seq<seq<License>>)
    requires ChildrenLinked(nodes) && n < |nodes| && i < |kids|
    requires forall k :: 0 <= k < |kids| ==> n < kids[k] < |nodes|
    requires s1 == Visit(nodes, get, Pass(nodes, get, start, BelowAll(nodes, n, kids[..i])), kids[i])
    requires s2 == Pass(nodes, get, s1, Below(nodes, kids[i]))
    ensures s2 == Pass(nodes, get, start, BelowAll(nodes, n, kids[..i + 1]))
  {
    var done := BelowAll(nodes, n, kids[..i]);
    PassAppend(nodes, get, start, done, [kids[i]]);
    PassAppend(nodes, get, start, done + [kids[i]], Below(nodes, kids[i]));
    SliceStep(kids, i);
    BelowAllAppend(nodes, n, kids[..i], kids[i]);
  }

  /**
   * `checkForLicenses` at node `n`: for each child in order, the licenses found for its
   * artifact are added, then the pass descends into the child.
   */
  method CheckForLicenses(tree: Tree<AyoyArtifact?>, n: nat, get: Artifact -> Option<seq<License>>)
    requires tree.Valid() && n < |tree.nodes|
    requires forall m :: 0 < m < |tree.nodes| ==> tree.nodes[m].data != null
    requires DistinctData(tree.nodes)
    modifies Objects(Datas(tree.nodes))`licenses
    ensures LicensesOf(Datas(tree.nodes)) == Pass(tree.nodes, get, old(LicensesOf(Datas(tree.nodes))), Below(tree.nodes, n))
    decreases |tree.nodes| - n, 1
  {
    ghost var start := LicensesOf(Datas(tree.nodes));
    var kids := tree.nodes[n].children;
    ChildrenInRange(tree.nodes, n);
    assert kids[..0] == [];
    for i := 0 to |kids|
      invariant LicensesOf(Datas(tree.nodes)) == Pass(tree.nodes, get, start, BelowAll(tree.nodes, n, kids[..i]))
    {
      CheckChild(tree, n, kids, i, get, start);
    }
    assert kids[..|kids|] == kids;
  }

  /** One round of the loop over the children of `n`. */
  method CheckChild(tree: Tree<AyoyArtifact?>, n: nat, kids: seq<nat>, i: nat, get: Artifact -> Option<seq<License>>,
                    ghost start: seq<seq<License>>)
    requires tree.Valid() && n < |tree.nodes| && kids == tree.nodes[n].children && i < |kids|
    requires forall k :: 0 <= k < |kids| ==> n < kids[k] < |tree.nodes|
    requires forall m :: 0 < m < |tree.nodes| ==> tree.nodes[m].data != null
    requires DistinctData(tree.nodes)
    requires LicensesOf(Datas(tree.nodes)) == Pass(tree.nodes, get, start, BelowAll(tree.nodes, n, kids[..i]))
    modifies Objects(Datas(tree.nodes))`licenses
    ensures LicensesOf(Datas(tree.nodes)) == Pass(tree.nodes, get, start, BelowAll(tree.nodes, n, kids[..i + 1]))
    decreases |tree.nodes| - n, 0
  {
    var childNode := kids[i];
    CheckNode(tree, childNode, get);
    ghost var s1 := LicensesOf(Datas(tree.nodes));
    CheckForLicenses(tree, childNode, get);
    ChildTurn(tree.nodes, get, n, kids, i, start, s1, LicensesOf(Datas(tree.nodes)));
  }

  /** The body for one node: the licenses `getLicenses` reports, when not `null`, appended to its artifact. */
  method CheckNode(tree: Tree<AyoyArtifact?>, c: nat, get: Artifact -> Option<seq<License>>)
    requires 0 < c < |tree.nodes| && tree.nodes[c].data != null && DistinctData(tree.nodes)
    modifies Objects(Datas(tree.nodes))`licenses
    ensures LicensesOf(Datas(tree.nodes)) == Visit(tree.nodes, get, old(LicensesOf(Datas(tree.nodes))), c)
  {
    ghost var ds := Datas(tree.nodes);
    ghost var before := LicensesOf(ds);
    var ayoyArtifact := tree.nodes[c].data;
    var licenses := get(ayoyArtifact.artifact);
    if licenses.Some? {
      ayoyArtifact.AddLicenses(licenses);
    }
    ghost var now := LicensesOf(ds);
    forall m | 0 <= m < |ds|
      ensures now[m] == Visit(tree.nodes, get, before, c)[m]
    {
      if m != c && ds[m] != null {
        assert ds[m] != ayoyArtifact;
      }
    }
  }
}
