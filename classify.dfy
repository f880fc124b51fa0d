/**
 * `determineArtifactStatus`: every declared license of every artifact below a node is
 * classified against the policy table, in pre-order and in license order. A license the
 * table does not list becomes a new UNKNOWN entry that is appended to the table, so the
 * rest of the run finds it there.
 */
module Classify {
  import opened Wrappers
  import opened Maven
  import opened Licenses
  import opened Model
  import opened Resolver

  type Nodes = seq<Node<AyoyArtifact?>>

  /**
   * The entry created for a license the table does not list: the license's own name and url,
   * status UNKNOWN. The `(name, url, status)` constructor of `LicenseInfo` is modelled as
   * accepting exactly that name and that url.
   */
  function UnknownInfo(l: License): LicenseInfo
  {
    LicenseInfo(l.name, [l.name], [l.url], Unknown)
  }

  /** The classifications of some licenses and the table after them. */
  datatype Classified = Classified(infos: seq<LicenseInfo>, table: seq<LicenseInfo>)

  /** One license: the first matching entry of the table, or a new UNKNOWN entry appended to it. */
  function ClassifyOne(table: seq<LicenseInfo>, l: License): (r: Classified)
    ensures |r.infos| == 1
    ensures FirstMatch(table, l.name, l.url).Some? ==>
      r.table == table && r.infos[0] == table[FirstMatch(table, l.name, l.url).value]
    ensures FirstMatch(table, l.name, l.url).None? ==>
      && r.table == table + r.infos
      && r.infos[0].status == Unknown && r.infos[0].name == l.name
      && (l.name.Some? || l.url.Some? ==> HasLicenceInfo(r.infos[0], l.name, l.url))
  {
    match FirstMatch(table, l.name, l.url)
    case Some(k) => Classified([table[k]], table)
    case None => Classified([UnknownInfo(l)], table + [UnknownInfo(l)])
  }

  /** The licenses in order: one classification each, the table only ever growing at its end. */
  function Classify(table: seq<LicenseInfo>, ls: seq<License>): (r: Classified)
    ensures |r.infos| == |ls|
    ensures |table| <= |r.table| && r.table[..|table|] == table
  {
    if ls == [] then Classified([], table)
    else
      var prev := Classify(table, ls[..|ls| - 1]);
      var one := ClassifyOne(prev.table, ls[|ls| - 1]);
      Classified(prev.infos + one.infos, one.table)
  }

  /** The `i`-th classification is that of the `i`-th license against the table as the earlier ones left it. */
  lemma {:induction false} ClassifyAt(table: seq<LicenseInfo>, ls: seq<License>, i: nat)
    requires i < |ls|
    ensures Classify(table, ls).infos[i] == ClassifyOne(Classify(table, ls[..i]).table, ls[i]).infos[0]
  {
    var init := ls[..|ls| - 1];
    if i < |ls| - 1 {
      assert init[..i] == ls[..i];
      ClassifyAt(table, init, i);
    } else {
      assert ls[..i] == init;
    }
  }

  /** One more license: its classification after those of the licenses before it. */
  lemma ClassifyLast(table: seq<LicenseInfo>, ls: seq<License>, j: nat)
    requires j < |ls|
    ensures var prev := Classify(table, ls[..j]);
      Classify(table, ls[..j + 1]) == Classified(prev.infos + ClassifyOne(prev.table, ls[j]).infos, ClassifyOne(prev.table, ls[j]).table)
  {
    assert ls[..j + 1][..j] == ls[..j];
  }

  /** Licenses that the table already lists never grow it. */
  lemma {:induction false} ClassifyMatched(table: seq<LicenseInfo>, ls: seq<License>)
    requires forall k :: 0 <= k < |ls| ==> FirstMatch(table, ls[k].name, ls[k].url).Some?
    ensures Classify(table, ls).table == table
  {
    if ls != [] {
      ClassifyMatched(table, ls[..|ls| - 1]);
    }
  }

  /**
   * Memoization: once a license with a name or a url has been classified, classifying it
   * again against the table as it then is, or as it has grown since, gives the same entry
   * and leaves the table as it is.
   */
  lemma ClassifyOneMemo(table: seq<LicenseInfo>, l: License, more: seq<LicenseInfo>)
    requires l.name.Some? || l.url.Some?
    ensures var first := ClassifyOne(table, l);
      ClassifyOne(first.table + more, l) == Classified(first.infos, first.table + more)
  {
    var first := ClassifyOne(table, l);
    match FirstMatch(table, l.name, l.url)
    case Some(k) =>
      FirstMatchExtend(table, more, l.name, l.url);
    case None =>
      var u := UnknownInfo(l);
      assert HasLicenceInfo(u, l.name, l.url);
      assert FirstMatch([u] + more, l.name, l.url) == Some(0);
      FirstMatchSkip(table, [u] + more, l.name, l.url);
      assert first.table + more == table + ([u] + more);
  }

  /** A license with neither name nor url matches no entry, so each classification of it adds one. */
  lemma NullLicenseNotMemoized(table: seq<LicenseInfo>)
    ensures ClassifyOne(table, License(None, None)).table == table + [UnknownInfo(License(None, None))]
  {
  }

  // The objects of the tree, and what the pass reads and writes of them.

  /** The contents of the nodes, in node order. */
  function Datas(nodes: Nodes): (r: seq<AyoyArtifact?>)
    ensures |r| == |nodes| && forall m :: 0 <= m < |nodes| ==> r[m] == nodes[m].data
  {
    seq(|nodes|, m requires 0 <= m < |nodes| => nodes[m].data)
  }

  ghost function Objects(ds: seq<AyoyArtifact?>): set<AyoyArtifact>
  {
    set a: AyoyArtifact | a in ds
  }

  /** The classifications attached to each artifact (none for an empty node). */
  function InfosOf(ds: seq<AyoyArtifact?>): (r: seq<seq<LicenseInfo>>)
    reads Objects(ds)`licenseInfos
    ensures |r| == |ds| && forall m :: 0 <= m < |ds| ==> r[m] == (if ds[m] == null then [] else ds[m].licenseInfos)
    decreases |ds|
  {
    if ds == [] then []
    else
      assert Objects(ds[..|ds| - 1]) <= Objects(ds);
      var last := ds[|ds| - 1];
      InfosOf(ds[..|ds| - 1]) + [if last == null then [] else last.licenseInfos]
  }

  /** `decls` lists the licenses declared for the artifact of each node. */
  ghost predicate Declared(nodes: Nodes, decls: seq<seq<License>>)
    reads Objects(Datas(nodes))`licenses
  {
    |decls| == |nodes| &&
    forall m :: 0 <= m < |nodes| && nodes[m].data != null ==> nodes[m].data.licenses == decls[m]
  }

  /** The state the pass works on: per node the attached classifications, and the policy table. */
  datatype Audit = Audit(infos: seq<seq<LicenseInfo>>, table: seq<LicenseInfo>)

  /** Every entry of `order` is below `size`. */
  predicate Fits(order: seq<nat>, size: nat)
  {
    forall k :: 0 <= k < |order| ==> order[k] < size
  }

  /**
   * Node `m` classified: its licenses' classifications appended to its own, the table grown
   * by what they added (a position outside the tree changes nothing).
   */
  function Step(decls: seq<seq<License>>, st: Audit, m: nat): Audit
  {
    if m < |decls| && m < |st.infos| then
      var c := Classify(st.table, decls[m]);
      Audit(st.infos[m := st.infos[m] + c.infos], c.table)
    else st
  }

  /** The nodes of `order` classified one after the other. */
  function Run(decls: seq<seq<License>>, st: Audit, order: seq<nat>): (r: Audit)
    ensures |r.infos| == |st.infos|
    decreases |order|
  {
    if order == [] then st
    else Step(decls, Run(decls, st, order[..|order| - 1]), order[|order| - 1])
  }

  lemma {:induction false} RunAppend(decls: seq<seq<License>>, st: Audit, order: seq<nat>, more: seq<nat>)
    ensures Run(decls, st, order + more) == Run(decls, Run(decls, st, order), more)
    decreases |more|
  {
    if more == [] {
      assert order + more == order;
    } else {
      var init := more[..|more| - 1];
      assert (order + more)[..|order + more| - 1] == order + init;
      RunAppend(decls, st, order, init);
    }
  }

  /** A node the pass does not reach keeps its classifications. */
  lemma {:induction false} RunOutside(decls: seq<seq<License>>, st: Audit, order: seq<nat>, m: nat)
    requires m < |st.infos| && m !in order
    ensures Run(decls, st, order).infos[m] == st.infos[m]
    decreases |order|
  {
    if order != [] {
      var init := order[..|order| - 1];
      RunOutside(decls, st, init, m);
    }
  }

  /**
   * Each node the pass reaches, once: its declared licenses' classifications appended after
   * the ones it had, one per license and in license order, against the table as the nodes
   * before it in the pass left it.
   */
  lemma {:induction false} RunNode(decls: seq<seq<License>>, st: Audit, order: seq<nat>, k: nat)
    requires Fits(order, |decls|) && |st.infos| == |decls|
    requires Distinct(order) && k < |order|
    ensures Run(decls, st, order).infos[order[k]] ==
      st.infos[order[k]] + Classify(Run(decls, st, order[..k]).table, decls[order[k]]).infos
    decreases |order|
  {
    var init := order[..|order| - 1];
    if k < |order| - 1 {
      assert init[..k] == order[..k];
      assert Distinct(init);
      RunNode(decls, st, init, k);
    } else {
      assert order[..k] == init;
      RunOutside(decls, st, init, order[k]);
    }
  }

  /** The table only grows, at its end. */
  lemma {:induction false} RunTableGrows(decls: seq<seq<License>>, st: Audit, order: seq<nat>)
    ensures |st.table| <= |Run(decls, st, order).table|
    ensures Run(decls, st, order).table[..|st.table|] == st.table
    decreases |order|
  {
    if order != [] {
      var init := order[..|order| - 1];
      RunTableGrows(decls, st, init);
      var before := Run(decls, st, init).table;
      var after := Run(decls, st, order).table;
      assert after[..|before|] == before;
      assert after[..|st.table|] == after[..|before|][..|st.table|];
    }
  }

  /** The turn of the `i`-th child in the pass over `n`: the child stepped, then everything below it. */
  lemma ChildTurn<T>(nodes: seq<Node<T>>, n: nat, kids: seq<nat>, i: nat, decls: seq<seq<License>>, start: Audit, s1: Audit, s2: Audit)
    requires ChildrenLinked(nodes) && n < |nodes| && i < |kids|
    requires forall k :: 0 <= k < |kids| ==> n < kids[k] < |nodes|
    requires s1 == Step(decls, Run(decls, start, BelowAll(nodes, n, kids[..i])), kids[i])
    requires s2 == Run(decls, s1, Below(nodes, kids[i]))
    ensures s2 == Run(decls, start, BelowAll(nodes, n, kids[..i + 1]))
  {
    var done := BelowAll(nodes, n, kids[..i]);
    RunAppend(decls, start, done, [kids[i]]);
    RunAppend(decls, start, done + [kids[i]], Below(nodes, kids[i]));
    SliceStep(kids, i);
    BelowAllAppend(nodes, n, kids[..i], kids[i]);
  }

  /** No two nodes of the tree share an artifact object. */
  ghost predicate DistinctData(nodes: Nodes)
  {
    forall m, m' :: 0 <= m < |nodes| && 0 <= m' < |nodes| && m != m' && nodes[m].data != null ==>
      nodes[m].data != nodes[m'].data
  }

  /** The inner loop of the pass: the artifact's licenses classified in order, each result attached to it. */
  method ClassifyLicenses(artifact: AyoyArtifact, table: LicenseInfoFile)
    modifies artifact`licenseInfos, table
    ensures artifact.licenseInfos == old(artifact.licenseInfos) + Classify(old(table.licenseInfos), artifact.licenses).infos
    ensures table.licenseInfos == Classify(old(table.licenseInfos), artifact.licenses).table
  {
    ghost var attached := artifact.licenseInfos;
    ghost var initial := table.licenseInfos;
    var licenses := artifact.GetLicenses();
    var j := 0;
    while j < |licenses|
      invariant 0 <= j <= |licenses|
      invariant artifact.licenseInfos == attached + Classify(initial, licenses[..j]).infos
      invariant table.licenseInfos == Classify(initial, licenses[..j]).table
    {
      ghost var infosBefore, tableBefore := artifact.licenseInfos, table.licenseInfos;
      ClassifyLicense(artifact, table, licenses[j]);
      ClassifyExtend(initial, licenses, j, attached, infosBefore, tableBefore, artifact.licenseInfos, table.licenseInfos);
      j := j + 1;
    }
    assert licenses[..j] == licenses;
  }

  /** The invariant of the inner loop carried over one round. */
  lemma ClassifyExtend(initial: seq<LicenseInfo>, ls: seq<License>, j: nat, attached: seq<LicenseInfo>,
                       infosBefore: seq<LicenseInfo>, tableBefore: seq<LicenseInfo>,
                       infosAfter: seq<LicenseInfo>, tableAfter: seq<LicenseInfo>)
    requires j < |ls|
    requires infosBefore == attached + Classify(initial, ls[..j]).infos && tableBefore == Classify(initial, ls[..j]).table
    requires infosAfter == infosBefore + ClassifyOne(tableBefore, ls[j]).infos
    requires tableAfter == ClassifyOne(tableBefore, ls[j]).table
    ensures infosAfter == attached + Classify(initial, ls[..j + 1]).infos
    ensures tableAfter == Classify(initial, ls[..j + 1]).table
  {
    ClassifyLast(initial, ls, j);
  }

  /**
   * One round of the inner loop: the table's entry for the license, or a new UNKNOWN entry
   * added to the table, attached to the artifact.
   */
  method ClassifyLicense(artifact: AyoyArtifact, table: LicenseInfoFile, license: License)
    modifies artifact`licenseInfos, table
    ensures artifact.licenseInfos == old(artifact.licenseInfos) + ClassifyOne(old(table.licenseInfos), license).infos
    ensures table.licenseInfos == ClassifyOne(old(table.licenseInfos), license).table
  {
    var info := table.GetLicenseInfo(license.name, license.url);
    var found: LicenseInfo;
    if info.None? {
      found := UnknownInfo(license);
      table.AddLicenseInfo(found);
    } else {
      found := info.value;
    }
    artifact.AddLicenseInfo(found);
  }

  /** The pass state of a tree and a table. */
  ghost function State(nodes: Nodes, table: LicenseInfoFile): Audit
    reads Objects(Datas(nodes))`licenseInfos, table
  {
    Audit(InfosOf(Datas(nodes)), table.licenseInfos)
  }

  /**
   * `determineArtifactStatus` at node `n`: for each child in order, the child's licenses are
   * classified and then the pass descends into the child; so the nodes below `n` are
   * classified in pre-order.
   */
  method DetermineArtifactStatus(tree: Tree<AyoyArtifact?>, n: nat, table: LicenseInfoFile, ghost decls: seq<seq<License>>)
    requires tree.Valid() && n < |tree.nodes|
    requires forall m :: 0 < m < |tree.nodes| ==> tree.nodes[m].data != null
    requires DistinctData(tree.nodes) && Declared(tree.nodes, decls)
    modifies Objects(Datas(tree.nodes))`licenseInfos, table
    ensures Declared(tree.nodes, decls)
    ensures State(tree.nodes, table) == Run(decls, old(State(tree.nodes, table)), Below(tree.nodes, n))
    decreases |tree.nodes| - n, 1
  {
    ghost var start := State(tree.nodes, table);
    var kids := tree.nodes[n].children;
    ChildrenInRange(tree.nodes, n);
    assert kids[..0] == [];
    var i := 0;
    while i < |kids|
      invariant 0 <= i <= |kids| && Declared(tree.nodes, decls)
      invariant State(tree.nodes, table) == Run(decls, start, BelowFirst(tree.nodes, n, kids, i))
    {
      ClassifyChild(tree, n, kids, i, table, decls, start);
      i := i + 1;
    }
    assert kids[..i] == kids;
  }

  /** The nodes the pass over `n` reaches through its first `i` children. */
  function BelowFirst<T>(nodes: seq<Node<T>>, n: nat, kids: seq<nat>, i: nat): seq<nat>
    requires ChildrenLinked(nodes) && n < |nodes| && i <= |kids|
    requires forall k :: 0 <= k < |kids| ==> n < kids[k] < |nodes|
  {
    BelowAll(nodes, n, kids[..i])
  }

  /** One round of the loop over the children of `n`: the `i`-th child classified, then the pass below it. */
  method ClassifyChild(tree: Tree<AyoyArtifact?>, n: nat, kids: seq<nat>, i: nat, table: LicenseInfoFile,
                       ghost decls: seq<seq<License>>, ghost start: Audit)
    requires tree.Valid() && n < |tree.nodes| && kids == tree.nodes[n].children && i < |kids|
    requires forall k :: 0 <= k < |kids| ==> n < kids[k] < |tree.nodes|
    requires forall m :: 0 < m < |tree.nodes| ==> tree.nodes[m].data != null
    requires DistinctData(tree.nodes) && Declared(tree.nodes, decls)
    requires State(tree.nodes, table) == Run(decls, start, BelowFirst(tree.nodes, n, kids, i))
    modifies Objects(Datas(tree.nodes))`licenseInfos, table
    ensures Declared(tree.nodes, decls)
    ensures State(tree.nodes, table) == Run(decls, start, BelowFirst(tree.nodes, n, kids, i + 1))
    decreases |tree.nodes| - n, 0
  {
    var childNode := kids[i];
    ClassifyNode(tree, childNode, table, decls);
    ghost var s1 := State(tree.nodes, table);
    DetermineArtifactStatus(tree, childNode, table, decls);
    ChildTurn(tree.nodes, n, kids, i, decls, start, s1, State(tree.nodes, table));
  }

  /** The licenses of the artifact of node `c` classified: the pass state is the one before with node `c` stepped. */
  method ClassifyNode(tree: Tree<AyoyArtifact?>, c: nat, table: LicenseInfoFile, ghost decls: seq<seq<License>>)
    requires 0 < c < |tree.nodes| && tree.nodes[c].data != null && DistinctData(tree.nodes)
    requires Declared(tree.nodes, decls)
    modifies Objects(Datas(tree.nodes))`licenseInfos, table
    ensures Declared(tree.nodes, decls)
    ensures State(tree.nodes, table) == Step(decls, old(State(tree.nodes, table)), c)
  {
    ghost var ds := Datas(tree.nodes);
    ghost var mid := State(tree.nodes, table);
    var artifactToCheck := tree.nodes[c].data;
    ClassifyLicenses(artifactToCheck, table);
    ghost var now := InfosOf(ds);
    forall m | 0 <= m < |ds|
      ensures now[m] == Step(decls, mid, c).infos[m]
    {
      if m != c && ds[m] != null {
        assert ds[m] != artifactToCheck;
      }
    }
  }

  lemma SliceStep(s: seq<nat>, i: nat)
    requires i < |s|
    ensures s[..i + 1] == s[..i] + [s[i]]
  {
  }

  /** The nodes below `n` are positions of the tree after `n`. */
  lemma BelowInRange<T>(nodes: seq<Node<T>>, n: nat)
    requires WellFormed(nodes) && n < |nodes|
    ensures Fits(Below(nodes, n), |nodes|)
  {
    var below := Below(nodes, n);
    forall k | 0 <= k < |below|
      ensures below[k] < |nodes|
    {
      BelowDescends(nodes, n, below[k]);
    }
  }
}
