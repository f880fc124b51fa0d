/**
 * `calculateOverallStatus` and the verdict of the `verify` goal: the classifications attached to
 * the artifacts are folded, in post-order, into the four flags of an `OverallStatus`, and the
 * flags decide, in a fixed order, whether the run fails and with which message.
 */
module Overall {
  import opened Wrappers
  import opened Maven
  import opened Licenses
  import opened Model
  import opened Resolver
  import opened Classify

  /** The flags the classifications of one artifact raise: MISSING for none, and one flag per violating status present. */
  function FlagsOf(infos: seq<LicenseInfo>): Flags
  {
    Flags(|infos| == 0,
          exists k :: 0 <= k < |infos| && infos[k].status == Forbidden,
          exists k :: 0 <= k < |infos| && infos[k].status == Warning,
          exists k :: 0 <= k < |infos| && infos[k].status == Unknown)
  }

  /**
   * The loop over one artifact's classifications: the four local booleans, MISSING cleared by
   * any classification, the others raised by their status. The status switch covers all four
   * statuses, so its default branch cannot be reached.
   */
  method ArtifactFlags(infos: seq<LicenseInfo>) returns (f: Flags)
    ensures f == FlagsOf(infos)
  {
    var artifactHasNoLicense := true;
    var artifactHasForbiddenLicense := false;
    var artifactHasWarningLicense := false;
    var artifactHasUnknownLicense := false;
    for i := 0 to |infos|
      invariant artifactHasNoLicense == (i == 0)
      invariant artifactHasForbiddenLicense == exists k :: 0 <= k < i && infos[k].status == Forbidden
      invariant artifactHasWarningLicense == exists k :: 0 <= k < i && infos[k].status == Warning
      invariant artifactHasUnknownLicense == exists k :: 0 <= k < i && infos[k].status == Unknown
    {
      artifactHasNoLicense := false;
      match infos[i].status
      case Valid =>
      case Warning => artifactHasWarningLicense := true;
      case Forbidden => artifactHasForbiddenLicense := true;
      case Unknown => artifactHasUnknownLicense := true;
    }
    f := Flags(artifactHasNoLicense, artifactHasForbiddenLicense, artifactHasWarningLicense, artifactHasUnknownLicense);
  }

  /** An artifact with no classification raises MISSING and nothing else. */
  lemma NoInfosOnlyMissing()
    ensures FlagsOf([]) == Flags(true, false, false, false)
  {
  }

  /** A VALID classification raises nothing: adding one to a non-empty list changes no flag. */
  lemma ValidAddsNothing(infos: seq<LicenseInfo>, info: LicenseInfo)
    requires |infos| > 0 && info.status == Valid
    ensures FlagsOf(infos + [info]) == FlagsOf(infos)
  {
    var all := infos + [info];
    assert forall k :: 0 <= k < |infos| ==> all[k] == infos[k];
    if exists k :: 0 <= k < |all| && all[k].status == Forbidden {
      var k :| 0 <= k < |all| && all[k].status == Forbidden;
      assert k < |infos|;
    }
    if exists k :: 0 <= k < |all| && all[k].status == Warning {
      var k :| 0 <= k < |all| && all[k].status == Warning;
      assert k < |infos|;
    }
    if exists k :: 0 <= k < |all| && all[k].status == Unknown {
      var k :| 0 <= k < |all| && all[k].status == Unknown;
      assert k < |infos|;
    }
  }

  /** VALID is the only status whose classification leaves every violation flag down. */
  lemma OnlyValidRaisesNothing(info: LicenseInfo)
    ensures FlagsOf([info]).(noLicense := false) == NoFlags <==> info.status == Valid
  {
    assert [info][0] == info;
  }

  /** What node `m`'s artifact adds to the overall status: nothing when it is judged valid, else its flags. */
  function Contribution(infos: seq<LicenseInfo>, isLicenseValid: (seq<LicenseInfo>, bool) -> bool, requireAllValid: bool): (r: Flags)
    ensures isLicenseValid(infos, requireAllValid) ==> r == NoFlags
    ensures !isLicenseValid(infos, requireAllValid) ==> r == FlagsOf(infos)
  {
    if isLicenseValid(infos, requireAllValid) then NoFlags else FlagsOf(infos)
  }

  /** `cs` lists the contribution of each node's artifact. */
  ghost predicate Contributes(nodes: Nodes, isLicenseValid: (seq<LicenseInfo>, bool) -> bool, requireAllValid: bool, cs: seq<Flags>)
    reads Objects(Datas(nodes))`licenseInfos
  {
    |cs| == |nodes| &&
    forall m :: 0 <= m < |nodes| && nodes[m].data != null ==>
      cs[m] == Contribution(nodes[m].data.licenseInfos, isLicenseValid, requireAllValid)
  }

  /** The nodes below `n` in post-order: each child after the nodes below it, children in list order. */
  function PostBelow<T>(nodes: seq<Node<T>>, n: nat): seq<nat>
    requires ChildrenLinked(nodes) && n < |nodes|
    decreases |nodes| - n, 1
  {
    PostAll(nodes, n, nodes[n].children)
  }

  function PostAll<T>(nodes: seq<Node<T>>, n: nat, kids: seq<nat>): seq<nat>
    requires ChildrenLinked(nodes) && n < |nodes|
    requires forall k :: 0 <= k < |kids| ==> n < kids[k] < |nodes|
    decreases |nodes| - n, 0, |kids|
  {
    if kids == [] then []
    else
      var last := kids[|kids| - 1];
      PostAll(nodes, n, kids[..|kids| - 1]) + PostBelow(nodes, last) + [last]
  }

  /** The contributions of the nodes of `order`, or-ed together in that order. */
  function Fold(cs: seq<Flags>, order: seq<nat>): Flags
    decreases |order|
  {
    if order == [] then NoFlags
    else
      var last := order[|order| - 1];
      Fold(cs, order[..|order| - 1]).Or(if last < |cs| then cs[last] else NoFlags)
  }

  lemma {:induction false} FoldAppend(cs: seq<Flags>, a: seq<nat>, b: seq<nat>)
    ensures Fold(cs, a + b) == Fold(cs, a).Or(Fold(cs, b))
    decreases |b|
  {
    if b == [] {
      assert a + b == a;
    } else {
      var init := b[..|b| - 1];
      assert (a + b)[..|a + b| - 1] == a + init;
      FoldAppend(cs, a, init);
    }
  }

  /** A flag of the fold is up exactly when the contribution of some node of `order` has it up. */
  lemma {:induction false} FoldRaises(cs: seq<Flags>, order: seq<nat>)
    ensures Fold(cs, order).noLicense <==> exists k :: 0 <= k < |order| && order[k] < |cs| && cs[order[k]].noLicense
    ensures Fold(cs, order).forbidden <==> exists k :: 0 <= k < |order| && order[k] < |cs| && cs[order[k]].forbidden
    ensures Fold(cs, order).warning <==> exists k :: 0 <= k < |order| && order[k] < |cs| && cs[order[k]].warning
    ensures Fold(cs, order).unknown <==> exists k :: 0 <= k < |order| && order[k] < |cs| && cs[order[k]].unknown
    decreases |order|
  {
    if order != [] {
      var init := order[..|order| - 1];
      FoldRaises(cs, init);
      assert forall k :: 0 <= k < |init| ==> init[k] == order[k];
    }
  }

  /** The fold does not depend on the order of the nodes, only on which nodes there are. */
  lemma {:induction false} FoldSameNodes(cs: seq<Flags>, a: seq<nat>, b: seq<nat>)
    requires forall x :: x in a <==> x in b
    ensures Fold(cs, a) == Fold(cs, b)
  {
    FoldRaises(cs, a);
    FoldRaises(cs, b);
    forall k | 0 <= k < |a|
      ensures exists j :: 0 <= j < |b| && b[j] == a[k]
    {
      assert a[k] in b;
    }
    forall j | 0 <= j < |b|
      ensures exists k :: 0 <= k < |a| && a[k] == b[j]
    {
      assert b[j] in a;
    }
  }

  /** Post-order and pre-order reach the same nodes. */
  lemma {:induction false} PostBelowSameNodes<T>(nodes: seq<Node<T>>, n: nat)
    requires ChildrenLinked(nodes) && n < |nodes|
    ensures forall x :: x in PostBelow(nodes, n) <==> x in Below(nodes, n)
    decreases |nodes| - n, 1
  {
    PostAllSameNodes(nodes, n, nodes[n].children);
  }

  lemma {:induction false} PostAllSameNodes<T>(nodes: seq<Node<T>>, n: nat, kids: seq<nat>)
    requires ChildrenLinked(nodes) && n < |nodes|
    requires forall k :: 0 <= k < |kids| ==> n < kids[k] < |nodes|
    ensures forall x :: x in PostAll(nodes, n, kids) <==> x in BelowAll(nodes, n, kids)
    decreases |nodes| - n, 0, |kids|
  {
    if kids != [] {
      var last := kids[|kids| - 1];
      PostAllSameNodes(nodes, n, kids[..|kids| - 1]);
      PostBelowSameNodes(nodes, last);
    }
  }

  /**
   * Every node below the start counts, whatever was decided for its parent: the pass raises a
   * flag exactly when some node below the start contributes that flag.
   */
  lemma PassRaises<T>(nodes: seq<Node<T>>, n: nat, cs: seq<Flags>)
    requires ChildrenLinked(nodes) && n < |nodes|
    ensures Fold(cs, PostBelow(nodes, n)) == Fold(cs, Below(nodes, n))
    ensures Fold(cs, PostBelow(nodes, n)).forbidden <==>
      exists k :: 0 <= k < |Below(nodes, n)| && Below(nodes, n)[k] < |cs| && cs[Below(nodes, n)[k]].forbidden
  {
    PostBelowSameNodes(nodes, n);
    FoldSameNodes(cs, PostBelow(nodes, n), Below(nodes, n));
    FoldRaises(cs, Below(nodes, n));
  }

  /** The four setters applied to the flags of one artifact: exactly those flags raised, none lowered. */
  method Raise(status: OverallStatus, f: Flags)
    modifies status
    ensures status.Value() == old(status.Value()).Or(f)
  {
    if f.noLicense {
      status.SetHasNoLicense(true);
    }
    if f.forbidden {
      status.SetHasForbiddenLicense(true);
    }
    if f.warning {
      status.SetHasWarningLicense(true);
    }
    if f.unknown {
      status.SetHasUnknownLicense(true);
    }
  }

  /**
   * `calculateOverallStatus` at node `n`: for each child in order, first the nodes below it,
   * then the child's own contribution. Only `status` changes, and a flag once up stays up.
   */
  method CalculateOverallStatus(status: OverallStatus, tree: Tree<AyoyArtifact?>, n: nat,
                                isLicenseValid: (seq<LicenseInfo>, bool) -> bool, requireAllValid: bool,
                                ghost cs: seq<Flags>)
    requires tree.Valid() && n < |tree.nodes|
    requires forall m :: 0 < m < |tree.nodes| ==> tree.nodes[m].data != null
    requires Contributes(tree.nodes, isLicenseValid, requireAllValid, cs)
    modifies status
    ensures status.Value() == old(status.Value()).Or(Fold(cs, PostBelow(tree.nodes, n)))
    decreases |tree.nodes| - n, 1
  {
    ghost var start := status.Value();
    var kids := tree.nodes[n].children;
    ChildrenInRange(tree.nodes, n);
    assert kids[..0] == [];
    var i := 0;
    while i < |kids|
      invariant 0 <= i <= |kids|
      invariant status.Value() == start.Or(Fold(cs, PostAll(tree.nodes, n, kids[..i])))
    {
      OverallChild(status, tree, n, kids, i, isLicenseValid, requireAllValid, cs, start);
      i := i + 1;
    }
    assert kids[..i] == kids;
  }

  /** One round of the loop over the children of `n`: the nodes below the `i`-th child, then the child itself. */
  method OverallChild(status: OverallStatus, tree: Tree<AyoyArtifact?>, n: nat, kids: seq<nat>, i: nat,
                      isLicenseValid: (seq<LicenseInfo>, bool) -> bool, requireAllValid: bool,
                      ghost cs: seq<Flags>, ghost start: Flags)
    requires tree.Valid() && n < |tree.nodes| && kids == tree.nodes[n].children && i < |kids|
    requires forall k :: 0 <= k < |kids| ==> n < kids[k] < |tree.nodes|
    requires forall m :: 0 < m < |tree.nodes| ==> tree.nodes[m].data != null
    requires Contributes(tree.nodes, isLicenseValid, requireAllValid, cs)
    requires status.Value() == start.Or(Fold(cs, PostAll(tree.nodes, n, kids[..i])))
    modifies status
    ensures status.Value() == start.Or(Fold(cs, PostAll(tree.nodes, n, kids[..i + 1])))
    decreases |tree.nodes| - n, 0
  {
    var childNode := kids[i];
    var artifact := tree.nodes[childNode].data;
    ghost var s0 := status.Value();
    CalculateOverallStatus(status, tree, childNode, isLicenseValid, requireAllValid, cs);
    ghost var s1 := status.Value();
    if !isLicenseValid(artifact.licenseInfos, requireAllValid) {
      var flags := ArtifactFlags(artifact.licenseInfos);
      Raise(status, flags);
    }
    OverallTurn(tree.nodes, n, kids, i, cs, start, s0, s1, status.Value());
  }

  /** The turn of the `i`-th child in the pass over `n`: the nodes below it, then its own contribution. */
  lemma OverallTurn<T>(nodes: seq<Node<T>>, n: nat, kids: seq<nat>, i: nat, cs: seq<Flags>, start: Flags, s0: Flags, s1: Flags, s2: Flags)
    requires ChildrenLinked(nodes) && n < |nodes| && i < |kids| && |cs| == |nodes|
    requires forall k :: 0 <= k < |kids| ==> n < kids[k] < |nodes|
    requires s0 == start.Or(Fold(cs, PostAll(nodes, n, kids[..i])))
    requires s1 == s0.Or(Fold(cs, PostBelow(nodes, kids[i])))
    requires s2 == s1.Or(cs[kids[i]])
    ensures s2 == start.Or(Fold(cs, PostAll(nodes, n, kids[..i + 1])))
  {
    var c := kids[i];
    var done := PostAll(nodes, n, kids[..i]);
    SliceStep(kids, i);
    assert kids[..i + 1][..i] == kids[..i];
    FoldAppend(cs, done + PostBelow(nodes, c), [c]);
    FoldAppend(cs, done, PostBelow(nodes, c));
    assert Fold(cs, [c]) == NoFlags.Or(cs[c]) by {
      assert [c][..0] == [];
    }
  }

  // The verdict of the `verify` goal.

  const MissingMessage := "One or more artifacts is missing license information."
  const WarningMessage := "One or more artifacts has licenses which is classified as warning."
  const UnknownMessage := "One or more artifacts has licenses which is unclassified."
  const ForbiddenMessage := "One or more artifacts has licenses which is classified as forbidden."

  /** The four `failOn...` switches of the goal; every one is on by default. */
  datatype FailOn = FailOn(missing: bool, warning: bool, unknown: bool, forbidden: bool)

  const DefaultFailOn := FailOn(true, true, true, true)

  /** The end of `execute`: `None` when the run passes, else the exception of the first enabled flag that is up. */
  function Verdict(failOn: FailOn, status: Flags): (r: Option<Exception>)
    ensures r.Some? ==> r.value.MojoExecution? && Rank(r.value.message) < 4 && Fires(failOn, status, Rank(r.value.message))
    ensures r.None? ==> forall rank :: 0 <= rank < 4 ==> !Fires(failOn, status, rank)
  {
    if failOn.missing && status.noLicense then Some(MojoExecution(MissingMessage))
    else if failOn.warning && status.warning then Some(MojoExecution(WarningMessage))
    else if failOn.unknown && status.unknown then Some(MojoExecution(UnknownMessage))
    else if failOn.forbidden && status.forbidden then Some(MojoExecution(ForbiddenMessage))
    else None
  }

  /** The rank of a failure message in the fixed order missing, warning, unknown, forbidden. */
  function Rank(message: string): nat
  {
    if message == MissingMessage then 0
    else if message == WarningMessage then 1
    else if message == UnknownMessage then 2
    else 3
  }

  /** Whether enabled flag number `rank` (in the fixed order) is up. */
  predicate Fires(failOn: FailOn, status: Flags, rank: nat)
  {
    match rank
    case 0 => failOn.missing && status.noLicense
    case 1 => failOn.warning && status.warning
    case 2 => failOn.unknown && status.unknown
    case _ => rank == 3 && failOn.forbidden && status.forbidden
  }

  /**
   * The run fails exactly when some enabled flag is up, and then with the message of the first
   * such flag in the fixed order: that flag fires and none before it does.
   */
  lemma VerdictPrecedence(failOn: FailOn, status: Flags)
    ensures Verdict(failOn, status).None? <==> forall rank :: 0 <= rank < 4 ==> !Fires(failOn, status, rank)
    ensures Verdict(failOn, status).Some? ==>
      var rank := Rank(Verdict(failOn, status).value.message);
      rank < 4 && Fires(failOn, status, rank) && forall r :: 0 <= r < rank ==> !Fires(failOn, status, r)
  {
    assert !Fires(failOn, status, 0) && !Fires(failOn, status, 1) && !Fires(failOn, status, 2) && !Fires(failOn, status, 3)
      ==> forall rank :: 0 <= rank < 4 ==> !Fires(failOn, status, rank);
  }

  /** Only the switches decide: with every switch off the run passes, and raising flags never turns a failure into a pass. */
  lemma VerdictMonotone(failOn: FailOn, status: Flags, more: Flags)
    ensures Verdict(FailOn(false, false, false, false), status).None?
    ensures Verdict(failOn, status).Some? ==> Verdict(failOn, status.Or(more)).Some?
  {
  }

  /**
   * With the default switches, a non-valid artifact classified FORBIDDEN and VALID makes the
   * run fail with the forbidden message.
   */
  lemma ForbiddenAndValidFails(forbidden: LicenseInfo, valid: LicenseInfo,
                               isLicenseValid: (seq<LicenseInfo>, bool) -> bool)
    requires forbidden.status == Forbidden && valid.status == Valid
    requires !isLicenseValid([forbidden, valid], true)
    ensures Verdict(DefaultFailOn, NoFlags.Or(Contribution([forbidden, valid], isLicenseValid, true))) ==
      Some(MojoExecution(ForbiddenMessage))
  {
    var infos := [forbidden, valid];
    assert infos[0].status == Forbidden;
    assert forall k :: 0 <= k < |infos| ==> infos[k].status != Warning && infos[k].status != Unknown;
  }
}
