/**
 * `LicenseAbstractMojo`: the scope filter and the collection of the artifacts to audit, the
 * project's direct dependencies each followed by what the repository resolves for it.
 * Maven's project builder and repository are parameters: `build` for `projectBuilder.build`,
 * `resolve` for `repositorySystem.resolve`, both giving their sets in iteration order.
 */
module Collect {
  import opened Wrappers
  import opened Maven
  import opened Model

  /** `matchesAnyScope`: some configured scope equals the artifact's scope; a `null` array matches nothing. */
  function MatchesAnyScope(a: Artifact, scopes: Option<seq<string>>): (r: bool)
    ensures scopes.None? ==> !r
    ensures r <==> scopes.Some? && exists k :: 0 <= k < |scopes.value| && a.scope == Some(scopes.value[k])
  {
    scopes.Some? && AnyScope(a.scope, scopes.value)
  }

  /** The search loop of `matchesAnyScope`, returning at the first equal scope. */
  function AnyScope(scope: Option<string>, scopes: seq<string>): (r: bool)
    ensures r <==> exists k :: 0 <= k < |scopes| && scope == Some(scopes[k])
  {
    if scopes == [] then false
    else if Some(scopes[0]) == scope then true
    else
      assert forall k :: 1 <= k < |scopes| ==> scopes[k] == scopes[1..][k - 1];
      AnyScope(scope, scopes[1..])
  }

  /** `Set.remove(x)`. */
  function Remove(s: seq<Artifact>, x: Artifact): (r: seq<Artifact>)
    ensures |r| <= |s| && x !in r
  {
    if s == [] then [] else (if s[0] == x then [] else [s[0]]) + Remove(s[1..], x)
  }

  /** `removeIf(transitive -> matchesAnyScope(transitive, excludedScopes))`. */
  function RemoveExcluded(s: seq<Artifact>, scopes: Option<seq<string>>): (r: seq<Artifact>)
    ensures |r| <= |s|
  {
    if s == [] then [] else (if MatchesAnyScope(s[0], scopes) then [] else [s[0]]) + RemoveExcluded(s[1..], scopes)
  }

  /** `resolveTransitiveArtifact`: what the repository resolves for the provider, then the two removals. */
  function ResolveTransitiveArtifact(provider: Artifact, resolve: Artifact -> seq<Artifact>, scopes: Option<seq<string>>): (r: seq<Artifact>)
    ensures |r| <= |resolve(provider)|
    ensures provider !in r
  {
    RemoveExcludedMembers(Remove(resolve(provider), provider), scopes, provider);
    RemoveExcluded(Remove(resolve(provider), provider), scopes)
  }

  lemma {:induction false} RemoveMembers(s: seq<Artifact>, x: Artifact, t: Artifact)
    ensures t in Remove(s, x) <==> t in s && t != x
    decreases |s|
  {
    if s != [] {
      RemoveMembers(s[1..], x, t);
      assert s == [s[0]] + s[1..];
    }
  }

  lemma {:induction false} RemoveExcludedMembers(s: seq<Artifact>, scopes: Option<seq<string>>, t: Artifact)
    ensures t in RemoveExcluded(s, scopes) <==> t in s && !MatchesAnyScope(t, scopes)
    decreases |s|
  {
    if s != [] {
      RemoveExcludedMembers(s[1..], scopes, t);
      assert s == [s[0]] + s[1..];
    }
  }

  /**
   * The transitive set holds exactly what the repository resolves for the provider, except the
   * provider itself and the artifacts whose scope is excluded.
   */
  lemma TransitiveMembers(provider: Artifact, resolve: Artifact -> seq<Artifact>, scopes: Option<seq<string>>, t: Artifact)
    ensures t in ResolveTransitiveArtifact(provider, resolve, scopes) <==>
      t in resolve(provider) && t != provider && !MatchesAnyScope(t, scopes)
  {
    RemoveMembers(resolve(provider), provider, t);
    RemoveExcludedMembers(Remove(resolve(provider), provider), scopes, t);
  }

  /** What one direct dependency adds: nothing when its scope is excluded, else itself and then its transitive artifacts. */
  function Contributed(d: Artifact, resolve: Artifact -> seq<Artifact>, scopes: Option<seq<string>>): seq<Artifact>
  {
    if MatchesAnyScope(d, scopes) then [] else [d] + ResolveTransitiveArtifact(d, resolve, scopes)
  }

  /** The artifacts `parseArtifacts` converts, in order: what each direct dependency adds, in turn. */
  function Collected(deps: seq<Artifact>, resolve: Artifact -> seq<Artifact>, scopes: Option<seq<string>>): seq<Artifact>
    decreases |deps|
  {
    if deps == [] then []
    else Collected(deps[..|deps| - 1], resolve, scopes) + Contributed(deps[|deps| - 1], resolve, scopes)
  }

  /** What `projectBuilder.build` gives: an exception, a `null` project, or a project whose license list may be `null`. */
  datatype Built = BuildFailure(message: string) | NullProject | Project(licenses: Option<seq<License>>)

  const BuildFailedMessage := "Could not build the project"
  const NullProjectMessage := "MavenProject retrieved from ProjectBuilder.build is null"
  const NullLicensesMessage := "Licenses is null, from mavenProject from "
  const NullRequestMessage := "Got null ProjectBuildingRequest from session."

  /** The licenses `toAyoyArtifact` gives an artifact, or the exception it throws; `show` is Maven's `Artifact.toString`. */
  function Fetched(a: Artifact, build: Artifact -> Built, show: Artifact -> string): (r: Result<seq<License>, Exception>)
    ensures r.Success? <==> build(a).Project? && build(a).licenses.Some?
    ensures r.Success? ==> r.value == build(a).licenses.value
  {
    match build(a)
    case BuildFailure(_) => Failure(MojoExecution(BuildFailedMessage))
    case NullProject => Failure(NullPointer(NullProjectMessage))
    case Project(licenses) =>
      if licenses.None? then Failure(NullPointer(NullLicensesMessage + show(a))) else Success(licenses.value)
  }

  /** Converting the artifacts in order: the licenses of each, or the exception of the first that fails. */
  function FetchAll(artifacts: seq<Artifact>, build: Artifact -> Built, show: Artifact -> string): (r: Result<seq<seq<License>>, Exception>)
    ensures r.Success? ==> |r.value| == |artifacts|
    decreases |artifacts|
  {
    if artifacts == [] then Success([])
    else
      match FetchAll(artifacts[..|artifacts| - 1], build, show)
      case Failure(e) => Failure(e)
      case Success(ls) =>
        match Fetched(artifacts[|artifacts| - 1], build, show)
        case Failure(e) => Failure(e)
        case Success(l) => Success(ls + [l])
  }

  /**
   * `toAyoyArtifact`: a new artifact whose licenses are exactly the fetched list, or the
   * exception; a failed build never yields an artifact.
   */
  method ToAyoyArtifact(a: Artifact, build: Artifact -> Built, show: Artifact -> string) returns (r: Result<AyoyArtifact, Exception>)
    ensures r.Failure? <==> Fetched(a, build, show).Failure?
    ensures r.Failure? ==> r.error == Fetched(a, build, show).error
    ensures r.Success? ==> fresh(r.value) && r.value.artifact == a && r.value.licenseInfos == []
    ensures r.Success? ==> r.value.licenses == Fetched(a, build, show).value
  {
    var licenseInfo := new AyoyArtifact(a);
    match build(a)
    case BuildFailure(_) =>
      return Failure(MojoExecution(BuildFailedMessage));
    case NullProject =>
      return Failure(NullPointer(NullProjectMessage));
    case Project(licenses) =>
      if licenses.None? {
        return Failure(NullPointer(NullLicensesMessage + show(a)));
      }
      licenseInfo.AddLicenses(licenses);
      return Success(licenseInfo);
  }

  /** The objects stand for the artifacts with the licenses `ls`, and carry no classification yet. */
  ghost predicate Holds(objs: seq<AyoyArtifact>, artifacts: seq<Artifact>, ls: seq<seq<License>>)
    reads objs
  {
    |objs| == |artifacts| && |ls| == |artifacts| &&
    forall k :: 0 <= k < |objs| ==> objs[k].artifact == artifacts[k] && objs[k].licenses == ls[k] && objs[k].licenseInfos == []
  }

  /**
   * `parseArtifacts`: the direct dependencies `deps` in iteration order, each one outside the
   * excluded scopes converted and followed by its converted transitive artifacts; the first
   * conversion that throws ends the method with that exception.
   */
  method ParseArtifacts(hasRequest: bool, deps: seq<Artifact>, scopes: Option<seq<string>>,
                        resolve: Artifact -> seq<Artifact>, build: Artifact -> Built, show: Artifact -> string)
    returns (r: Result<seq<AyoyArtifact>, Exception>)
    ensures !hasRequest ==> r == Failure(NullPointer(NullRequestMessage))
    ensures hasRequest ==> (r.Failure? <==> FetchAll(Collected(deps, resolve, scopes), build, show).Failure?)
    ensures hasRequest && r.Failure? ==> r.error == FetchAll(Collected(deps, resolve, scopes), build, show).error
    ensures r.Success? ==>
      var c := Collected(deps, resolve, scopes);
      var f := FetchAll(c, build, show);
      f.Success? && |r.value| == |c| &&
      forall k :: 0 <= k < |c| ==> r.value[k].artifact == c[k] && r.value[k].licenses == f.value[k] && r.value[k].licenseInfos == []
  {
    if !hasRequest {
      return Failure(NullPointer(NullRequestMessage));
    }
    ghost var licenses;
    r, licenses := CollectAll(deps, scopes, resolve, build, show);
  }

  /** The loop of `parseArtifacts` over the direct dependencies. */
  method CollectAll(deps: seq<Artifact>, scopes: Option<seq<string>>,
                    resolve: Artifact -> seq<Artifact>, build: Artifact -> Built, show: Artifact -> string)
    returns (r: Result<seq<AyoyArtifact>, Exception>, ghost licenses: seq<seq<License>>)
    ensures r.Failure? <==> FetchAll(Collected(deps, resolve, scopes), build, show).Failure?
    ensures r.Failure? ==> r.error == FetchAll(Collected(deps, resolve, scopes), build, show).error
    ensures r.Success? ==>
      FetchAll(Collected(deps, resolve, scopes), build, show) == Success(licenses) &&
      Holds(r.value, Collected(deps, resolve, scopes), licenses)
  {
    var toReturn: seq<AyoyArtifact> := [];
    licenses := [];
    assert deps[..0] == [];
    for i := 0 to |deps|
      invariant FetchAll(Collected(deps[..i], resolve, scopes), build, show) == Success(licenses)
      invariant Holds(toReturn, Collected(deps[..i], resolve, scopes), licenses)
    {
      ghost var done := Collected(deps[..i], resolve, scopes);
      CollectedStep(deps, i, resolve, scopes);
      var outcome, more := CollectDependency(deps[i], scopes, resolve, build, show, toReturn, done, licenses);
      if outcome.Failure? {
        FailureStays(deps, i + 1, resolve, scopes, build, show);
        return Failure(outcome.error), [];
      }
      toReturn := outcome.value;
      licenses := more;
    }
    assert deps[..|deps|] == deps;
    return Success(toReturn), licenses;
  }

  /** An exception while collecting the first `i` direct dependencies is the exception of the whole collection. */
  lemma FailureStays(deps: seq<Artifact>, i: nat, resolve: Artifact -> seq<Artifact>, scopes: Option<seq<string>>,
                     build: Artifact -> Built, show: Artifact -> string)
    requires i <= |deps| && FetchAll(Collected(deps[..i], resolve, scopes), build, show).Failure?
    ensures FetchAll(Collected(deps, resolve, scopes), build, show) == FetchAll(Collected(deps[..i], resolve, scopes), build, show)
  {
    CollectedSplit(deps, i, resolve, scopes);
    FetchAllFailed(Collected(deps[..i], resolve, scopes), Collected(deps[i..], resolve, scopes), build, show);
  }

  /**
   * One round of the loop of `parseArtifacts`: skip an excluded dependency, else convert it,
   * resolve its transitive artifacts and convert each of them in turn.
   */
  method CollectDependency(artifact: Artifact, scopes: Option<seq<string>>, resolve: Artifact -> seq<Artifact>,
                           build: Artifact -> Built, show: Artifact -> string,
                           toReturn: seq<AyoyArtifact>, ghost done: seq<Artifact>, ghost ls: seq<seq<License>>)
    returns (r: Result<seq<AyoyArtifact>, Exception>, ghost more: seq<seq<License>>)
    requires FetchAll(done, build, show) == Success(ls) && Holds(toReturn, done, ls)
    ensures r.Failure? <==> FetchAll(done + Contributed(artifact, resolve, scopes), build, show).Failure?
    ensures r.Failure? ==> r.error == FetchAll(done + Contributed(artifact, resolve, scopes), build, show).error
    ensures r.Success? ==> FetchAll(done + Contributed(artifact, resolve, scopes), build, show) == Success(more)
    ensures r.Success? ==> Holds(r.value, done + Contributed(artifact, resolve, scopes), more)
  {
    var isExcludedScope := MatchesAnyScope(artifact, scopes);
    if isExcludedScope {
      assert done + [] == done;
      return Success(toReturn), ls;
    }
    var first, ls1 := Convert(toReturn, artifact, build, show, done, ls);
    var transitiveArtifacts := ResolveTransitiveArtifact(artifact, resolve, scopes);
    Concat(done, [artifact], transitiveArtifacts);
    if first.Failure? {
      FetchAllFailed(done + [artifact], transitiveArtifacts, build, show);
      return Failure(first.error), [];
    }
    r, more := ConvertAll(first.value, transitiveArtifacts, build, show, done + [artifact], ls1);
  }

  /** The loop over the transitive artifacts: each converted and appended in turn, up to the first exception. */
  method ConvertAll(toReturn: seq<AyoyArtifact>, artifacts: seq<Artifact>, build: Artifact -> Built, show: Artifact -> string,
                    ghost done: seq<Artifact>, ghost ls: seq<seq<License>>)
    returns (r: Result<seq<AyoyArtifact>, Exception>, ghost more: seq<seq<License>>)
    requires FetchAll(done, build, show) == Success(ls) && Holds(toReturn, done, ls)
    ensures r.Failure? <==> FetchAll(done + artifacts, build, show).Failure?
    ensures r.Failure? ==> r.error == FetchAll(done + artifacts, build, show).error
    ensures r.Success? ==> FetchAll(done + artifacts, build, show) == Success(more) && Holds(r.value, done + artifacts, more)
  {
    var objs := toReturn;
    more := ls;
    assert artifacts[..0] == [] && done + [] == done;
    for j := 0 to |artifacts|
      invariant FetchAll(done + artifacts[..j], build, show) == Success(more)
      invariant Holds(objs, done + artifacts[..j], more)
    {
      PrefixStep(done, artifacts, j);
      var next, ls1 := Convert(objs, artifacts[j], build, show, done + artifacts[..j], more);
      if next.Failure? {
        PrefixSplit(done, artifacts, j + 1);
        FetchAllFailed(done + artifacts[..j + 1], artifacts[j + 1..], build, show);
        return Failure(next.error), [];
      }
      objs := next.value;
      more := ls1;
    }
    assert artifacts[..|artifacts|] == artifacts;
    return Success(objs), more;
  }

  /** `toReturn.add(toAyoyArtifact(a, buildingRequest))`. */
  method Convert(toReturn: seq<AyoyArtifact>, a: Artifact, build: Artifact -> Built, show: Artifact -> string,
                 ghost done: seq<Artifact>, ghost ls: seq<seq<License>>)
    returns (r: Result<seq<AyoyArtifact>, Exception>, ghost more: seq<seq<License>>)
    requires FetchAll(done, build, show) == Success(ls) && Holds(toReturn, done, ls)
    ensures r.Failure? <==> FetchAll(done + [a], build, show).Failure?
    ensures r.Failure? ==> r.error == FetchAll(done + [a], build, show).error
    ensures r.Success? ==> FetchAll(done + [a], build, show) == Success(more) && Holds(r.value, done + [a], more)
  {
    var converted := ToAyoyArtifact(a, build, show);
    FetchAllStep(done, a, build, show);
    if converted.Failure? {
      return Failure(converted.error), [];
    }
    r := Success(toReturn + [converted.value]);
    more := ls + [converted.value.licenses];
  }

  lemma Concat<T>(a: seq<T>, b: seq<T>, c: seq<T>)
    ensures a + (b + c) == a + b + c
  {
  }

  lemma PrefixStep(a: seq<Artifact>, b: seq<Artifact>, j: nat)
    requires j < |b|
    ensures a + b[..j + 1] == a + b[..j] + [b[j]]
  {
    assert b[..j + 1] == b[..j] + [b[j]];
  }

  lemma PrefixSplit(a: seq<Artifact>, b: seq<Artifact>, j: nat)
    requires j <= |b|
    ensures a + b == a + b[..j] + b[j..]
  {
    assert b == b[..j] + b[j..];
  }

  /** Converting one more artifact extends the list of licenses, or fails with that artifact's exception. */
  lemma FetchAllStep(artifacts: seq<Artifact>, a: Artifact, build: Artifact -> Built, show: Artifact -> string)
    ensures FetchAll(artifacts + [a], build, show) ==
      match FetchAll(artifacts, build, show)
      case Failure(e) => Failure(e)
      case Success(ls) => (match Fetched(a, build, show) case Failure(e) => Failure(e) case Success(l) => Success(ls + [l]))
  {
    assert (artifacts + [a])[..|artifacts|] == artifacts;
  }

  /** Once a conversion has failed, converting more artifacts keeps that exception. */
  lemma {:induction false} FetchAllFailed(artifacts: seq<Artifact>, more: seq<Artifact>, build: Artifact -> Built, show: Artifact -> string)
    requires FetchAll(artifacts, build, show).Failure?
    ensures FetchAll(artifacts + more, build, show) == FetchAll(artifacts, build, show)
    decreases |more|
  {
    if more == [] {
      assert artifacts + more == artifacts;
    } else {
      var init := more[..|more| - 1];
      assert (artifacts + more)[..|artifacts + more| - 1] == artifacts + init;
      FetchAllFailed(artifacts, init, build, show);
    }
  }

  lemma CollectedStep(deps: seq<Artifact>, i: nat, resolve: Artifact -> seq<Artifact>, scopes: Option<seq<string>>)
    requires i < |deps|
    ensures Collected(deps[..i + 1], resolve, scopes) == Collected(deps[..i], resolve, scopes) + Contributed(deps[i], resolve, scopes)
  {
    assert deps[..i + 1][..i] == deps[..i];
  }

  lemma CollectedSplit(deps: seq<Artifact>, i: nat, resolve: Artifact -> seq<Artifact>, scopes: Option<seq<string>>)
    requires i <= |deps|
    ensures Collected(deps, resolve, scopes) == Collected(deps[..i], resolve, scopes) + Collected(deps[i..], resolve, scopes)
  {
    assert deps == deps[..i] + deps[i..];
    CollectedAppend(deps[..i], deps[i..], resolve, scopes);
  }

  /** Collecting two lists of direct dependencies one after the other. */
  lemma {:induction false} CollectedAppend(a: seq<Artifact>, b: seq<Artifact>, resolve: Artifact -> seq<Artifact>, scopes: Option<seq<string>>)
    ensures Collected(a + b, resolve, scopes) == Collected(a, resolve, scopes) + Collected(b, resolve, scopes)
    decreases |b|
  {
    if b == [] {
      assert a + b == a;
    } else {
      var init := b[..|b| - 1];
      assert (a + b)[..|a + b| - 1] == a + init;
      assert (a + b)[|a + b| - 1] == b[|b| - 1];
      CollectedAppend(a, init, resolve, scopes);
      Concat(Collected(a, resolve, scopes), Collected(init, resolve, scopes), Contributed(b[|b| - 1], resolve, scopes));
    }
  }

  /** No collected artifact lies in an excluded scope: excluded direct dependencies are skipped, excluded transitive ones removed. */
  lemma {:induction false} NothingExcluded(deps: seq<Artifact>, resolve: Artifact -> seq<Artifact>, scopes: Option<seq<string>>)
    ensures forall t :: t in Collected(deps, resolve, scopes) ==> !MatchesAnyScope(t, scopes)
    decreases |deps|
  {
    if deps != [] {
      NothingExcluded(deps[..|deps| - 1], resolve, scopes);
      var d := deps[|deps| - 1];
      forall t | t in ResolveTransitiveArtifact(d, resolve, scopes)
        ensures !MatchesAnyScope(t, scopes)
      {
        TransitiveMembers(d, resolve, scopes, t);
      }
    }
  }

  /** `t` is what the direct dependency `d` contributes: `d` kept by the scope filter, and `t` is `d` or one of its transitive artifacts. */
  predicate FromDependency(d: Artifact, t: Artifact, resolve: Artifact -> seq<Artifact>, scopes: Option<seq<string>>)
  {
    !MatchesAnyScope(d, scopes) && (t == d || t in ResolveTransitiveArtifact(d, resolve, scopes))
  }

  /**
   * An artifact is collected exactly when it is a direct dependency outside the excluded scopes,
   * or is resolved for one and is neither that dependency nor in an excluded scope.
   */
  lemma {:induction false} CollectedMembers(deps: seq<Artifact>, resolve: Artifact -> seq<Artifact>, scopes: Option<seq<string>>, t: Artifact)
    ensures t in Collected(deps, resolve, scopes) <==> exists i :: 0 <= i < |deps| && FromDependency(deps[i], t, resolve, scopes)
    decreases |deps|
  {
    if deps != [] {
      var n := |deps| - 1;
      CollectedMembers(deps[..n], resolve, scopes, t);
      assert deps == deps[..n] + [deps[n]];
      CollectedLast(deps, deps[..n], deps[n], resolve, scopes, t);
    }
  }

  /** The step of `CollectedMembers`: one more dependency's contribution joins what the ones before it collected. */
  lemma CollectedLast(deps: seq<Artifact>, init: seq<Artifact>, d: Artifact, resolve: Artifact -> seq<Artifact>, scopes: Option<seq<string>>, t: Artifact)
    requires deps == init + [d]
    requires t in Collected(init, resolve, scopes) <==> exists i :: 0 <= i < |init| && FromDependency(init[i], t, resolve, scopes)
    ensures t in Collected(deps, resolve, scopes) <==> exists i :: 0 <= i < |deps| && FromDependency(deps[i], t, resolve, scopes)
  {
    assert deps[..|deps| - 1] == init;
    var before := Collected(init, resolve, scopes);
    var extra := Contributed(d, resolve, scopes);
    assert Collected(deps, resolve, scopes) == before + extra;
    ContributedMembers(d, resolve, scopes, t);
    if t in before {
      var i :| 0 <= i < |init| && FromDependency(init[i], t, resolve, scopes);
      assert deps[i] == init[i];
    }
    if exists i :: 0 <= i < |deps| && FromDependency(deps[i], t, resolve, scopes) {
      var i :| 0 <= i < |deps| && FromDependency(deps[i], t, resolve, scopes);
      if i < |init| {
        assert deps[i] == init[i];
      }
    }
  }

  lemma ContributedMembers(d: Artifact, resolve: Artifact -> seq<Artifact>, scopes: Option<seq<string>>, t: Artifact)
    ensures t in Contributed(d, resolve, scopes) <==> FromDependency(d, t, resolve, scopes)
  {
  }

  /**
   * Each kept direct dependency is immediately followed by its transitive artifacts: its block
   * starts where the collection of the dependencies before it ends.
   */
  lemma Block(deps: seq<Artifact>, i: nat, resolve: Artifact -> seq<Artifact>, scopes: Option<seq<string>>)
    requires i < |deps| && !MatchesAnyScope(deps[i], scopes)
    ensures var c := Collected(deps, resolve, scopes); var s := |Collected(deps[..i], resolve, scopes)|;
      var t := ResolveTransitiveArtifact(deps[i], resolve, scopes);
      s + 1 + |t| <= |c| && c[s] == deps[i] && c[s + 1..s + 1 + |t|] == t
  {
    Layout(deps, i, resolve, scopes);
    BlockIndex(Collected(deps[..i], resolve, scopes), deps[i], ResolveTransitiveArtifact(deps[i], resolve, scopes), Collected(deps[i + 1..], resolve, scopes));
  }

  /** The collection around a kept direct dependency: what comes before it, its block, what comes after. */
  lemma Layout(deps: seq<Artifact>, i: nat, resolve: Artifact -> seq<Artifact>, scopes: Option<seq<string>>)
    requires i < |deps| && !MatchesAnyScope(deps[i], scopes)
    ensures Collected(deps, resolve, scopes) ==
      Collected(deps[..i], resolve, scopes) + ([deps[i]] + ResolveTransitiveArtifact(deps[i], resolve, scopes)) + Collected(deps[i + 1..], resolve, scopes)
  {
    CollectedSplit(deps, i + 1, resolve, scopes);
    CollectedStep(deps, i, resolve, scopes);
  }

  lemma BlockIndex<T>(before: seq<T>, d: T, t: seq<T>, after: seq<T>)
    ensures |before| + 1 + |t| <= |before + ([d] + t) + after|
    ensures (before + ([d] + t) + after)[|before|] == d
    ensures (before + ([d] + t) + after)[|before| + 1..|before| + 1 + |t|] == t
  {
  }

  lemma BlockAt<T>(before: seq<T>, d: T, t: seq<T>, after: seq<T>, a: nat)
    requires a < |t|
    ensures |before| + 1 + a < |before + ([d] + t) + after|
    ensures (before + ([d] + t) + after)[|before| + 1 + a] == t[a]
  {
  }

  /**
   * The result is a list, not a set: an artifact resolved for two kept direct dependencies is
   * collected at two different positions, once for each.
   */
  lemma SharedTransitiveTwice(deps: seq<Artifact>, i: nat, j: nat, resolve: Artifact -> seq<Artifact>, scopes: Option<seq<string>>, x: Artifact)
    requires i < j < |deps| && !MatchesAnyScope(deps[i], scopes) && !MatchesAnyScope(deps[j], scopes)
    requires x in ResolveTransitiveArtifact(deps[i], resolve, scopes) && x in ResolveTransitiveArtifact(deps[j], resolve, scopes)
    ensures exists p, q ::
              0 <= p < q < |Collected(deps, resolve, scopes)| &&
              Collected(deps, resolve, scopes)[p] == x && Collected(deps, resolve, scopes)[q] == x
  {
    var c := Collected(deps, resolve, scopes);
    var ti := ResolveTransitiveArtifact(deps[i], resolve, scopes);
    var tj := ResolveTransitiveArtifact(deps[j], resolve, scopes);
    var si := |Collected(deps[..i], resolve, scopes)|;
    var sj := |Collected(deps[..j], resolve, scopes)|;
    PrefixGrows(deps, i, j, resolve, scopes);
    var a :| 0 <= a < |ti| && ti[a] == x;
    var b :| 0 <= b < |tj| && tj[b] == x;
    var p := TransitiveAt(deps, i, a, resolve, scopes);
    var q := TransitiveAt(deps, j, b, resolve, scopes);
    assert c[p] == x && c[q] == x;
  }

  /** Where the `a`-th transitive artifact of a kept direct dependency is collected. */
  lemma TransitiveAt(deps: seq<Artifact>, i: nat, a: nat, resolve: Artifact -> seq<Artifact>, scopes: Option<seq<string>>)
    returns (p: nat)
    requires i < |deps| && !MatchesAnyScope(deps[i], scopes) && a < |ResolveTransitiveArtifact(deps[i], resolve, scopes)|
    ensures p == |Collected(deps[..i], resolve, scopes)| + 1 + a && p < |Collected(deps, resolve, scopes)|
    ensures Collected(deps, resolve, scopes)[p] == ResolveTransitiveArtifact(deps[i], resolve, scopes)[a]
  {
    var before := Collected(deps[..i], resolve, scopes);
    p := |before| + 1 + a;
    Layout(deps, i, resolve, scopes);
    BlockAt(before, deps[i], ResolveTransitiveArtifact(deps[i], resolve, scopes), Collected(deps[i + 1..], resolve, scopes), a);
  }

  /** The collection of the dependencies before `j` includes the whole block of an earlier kept dependency `i`. */
  lemma PrefixGrows(deps: seq<Artifact>, i: nat, j: nat, resolve: Artifact -> seq<Artifact>, scopes: Option<seq<string>>)
    requires i < j <= |deps| && !MatchesAnyScope(deps[i], scopes)
    ensures |Collected(deps[..i], resolve, scopes)| + 1 + |ResolveTransitiveArtifact(deps[i], resolve, scopes)| <= |Collected(deps[..j], resolve, scopes)|
  {
    var front := deps[..j];
    assert front[..i] == deps[..i] && front[i] == deps[i];
    Block(front, i, resolve, scopes);
  }

  /**
   * The transitive artifacts of an excluded direct dependency are never asked for: two
   * repositories that agree on the kept dependencies give the same collection.
   */
  lemma {:induction false} ExcludedNeverResolved(deps: seq<Artifact>, resolve1: Artifact -> seq<Artifact>, resolve2: Artifact -> seq<Artifact>, scopes: Option<seq<string>>)
    requires forall i :: 0 <= i < |deps| && !MatchesAnyScope(deps[i], scopes) ==> resolve1(deps[i]) == resolve2(deps[i])
    ensures Collected(deps, resolve1, scopes) == Collected(deps, resolve2, scopes)
    decreases |deps|
  {
    if deps != [] {
      var init := deps[..|deps| - 1];
      assert forall i :: 0 <= i < |init| ==> init[i] == deps[i];
      ExcludedNeverResolved(init, resolve1, resolve2, scopes);
    }
  }

  /** The conversion succeeds exactly when every artifact converts, and then gives each artifact's licenses. */
  lemma {:induction false} FetchAllSuccess(artifacts: seq<Artifact>, build: Artifact -> Built, show: Artifact -> string)
    ensures FetchAll(artifacts, build, show).Success? <==> forall k :: 0 <= k < |artifacts| ==> Fetched(artifacts[k], build, show).Success?
    ensures FetchAll(artifacts, build, show).Success? ==>
      forall k :: 0 <= k < |artifacts| ==> FetchAll(artifacts, build, show).value[k] == Fetched(artifacts[k], build, show).value
    decreases |artifacts|
  {
    if artifacts != [] {
      var init := artifacts[..|artifacts| - 1];
      FetchAllSuccess(init, build, show);
      assert forall k :: 0 <= k < |init| ==> init[k] == artifacts[k];
    }
  }

  /** A failed conversion throws the exception of the first artifact that does not convert. */
  lemma {:induction false} FetchAllFirstFailure(artifacts: seq<Artifact>, build: Artifact -> Built, show: Artifact -> string)
    requires FetchAll(artifacts, build, show).Failure?
    ensures exists j ::
              0 <= j < |artifacts| && Fetched(artifacts[j], build, show).Failure? &&
              FetchAll(artifacts, build, show).error == Fetched(artifacts[j], build, show).error &&
              forall k :: 0 <= k < j ==> Fetched(artifacts[k], build, show).Success?
    decreases |artifacts|
  {
    var init := artifacts[..|artifacts| - 1];
    var last := |artifacts| - 1;
    assert forall k :: 0 <= k < |init| ==> init[k] == artifacts[k];
    if FetchAll(init, build, show).Failure? {
      FetchAllFirstFailure(init, build, show);
    } else {
      FetchAllSuccess(init, build, show);
      assert Fetched(artifacts[last], build, show).Failure?;
    }
  }
}
