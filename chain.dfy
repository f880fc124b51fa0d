/**
 * `getChainString`: the dependency chain from the project down to a node, written as `pom`
 * followed by ` -> groupId:artifactId` for each artifact on the way.
 */
module Chain {
  import opened Wrappers
  import opened Maven
  import opened Model
  import opened Resolver

  type Nodes = seq<Node<AyoyArtifact?>>

  /**
   * The artifacts met walking up from `m` until a node without an artifact, listed from the top
   * down; `None` when the walk leaves the tree first (a node with an artifact and no parent),
   * where the source dereferences `null`.
   */
  ghost function Path(nodes: Nodes, m: nat): Option<seq<Artifact>>
    requires ParentsBefore(nodes) && m < |nodes|
    decreases m
  {
    if nodes[m].data == null then Some([])
    else match nodes[m].parent
      case None => None
      case Some(p) => Extend(Path(nodes, p), [nodes[m].data.artifact])
  }

  function Extend(path: Option<seq<Artifact>>, more: seq<Artifact>): Option<seq<Artifact>>
  {
    match path
    case None => None
    case Some(p) => Some(p + more)
  }

  /** One link of the chain. */
  function Link(a: Artifact): string
  {
    " -> " + a.groupId + ":" + a.artifactId
  }

  /** The links of a path, top first. */
  function Links(path: seq<Artifact>): string
    decreases |path|
  {
    if path == [] then "" else Links(path[..|path| - 1]) + Link(path[|path| - 1])
  }

  lemma {:induction false} LinksAppend(a: seq<Artifact>, b: seq<Artifact>)
    ensures Links(a + b) == Links(a) + Links(b)
    decreases |b|
  {
    if b == [] {
      assert a + b == a;
    } else {
      var init := b[..|b| - 1];
      assert (a + b)[..|a + b| - 1] == a + init;
      LinksAppend(a, init);
      Assoc(Links(a), Links(init), Link(b[|b| - 1]));
    }
  }

  lemma Assoc(x: string, y: string, z: string)
    ensures x + y + z == x + (y + z)
  {
  }

  lemma LinksOne(a: Artifact, rest: seq<Artifact>)
    ensures Links([a] + rest) == Link(a) + Links(rest)
  {
    LinksAppend([a], rest);
    assert [a][..0] == [];
  }

  /** What `getChainString` returns for node `m`, or the exception it throws. */
  ghost function ChainString(nodes: Nodes, m: nat): Result<string, Exception>
    requires ParentsBefore(nodes) && m < |nodes|
  {
    if nodes[m].data == null then Success("")
    else match Path(nodes, m)
      case None => Failure(NullPointer(""))  // the JVM gives this exception no message
      case Some(path) => Success("pom" + Links(path))
  }

  /**
   * The method: prepend the link of each node while walking up the parents, then prepend `pom`.
   */
  method GetChainString(tree: Tree<AyoyArtifact?>, m: nat) returns (r: Result<string, Exception>)
    requires tree.Valid() && m < |tree.nodes|
    ensures r == ChainString(tree.nodes, m)
  {
    if tree.nodes[m].data == null {
      return Success("");
    }
    var toReturn := "";
    var currentNode: nat := m;
    ghost var suffix: seq<Artifact> := [];
    ExtendNothing(Path(tree.nodes, m));
    while tree.nodes[currentNode].data != null
      invariant currentNode < |tree.nodes| && toReturn == Links(suffix)
      invariant Path(tree.nodes, m) == Extend(Path(tree.nodes, currentNode), suffix)
      decreases currentNode
    {
      var artifact := tree.nodes[currentNode].data.artifact;
      var artifactInfo := " -> " + artifact.groupId + ":" + artifact.artifactId;
      LinksOne(artifact, suffix);
      toReturn := artifactInfo + toReturn;
      var parent := tree.nodes[currentNode].parent;
      if parent.None? {
        return Failure(NullPointer(""));  // `getData()` on the missing parent
      }
      ExtendTwice(Path(tree.nodes, parent.value), [artifact], suffix);
      suffix := [artifact] + suffix;
      currentNode := parent.value;
    }
    assert Path(tree.nodes, currentNode) == Some([]);
    assert [] + suffix == suffix;
    toReturn := "pom" + toReturn;
    return Success(toReturn);
  }

  lemma ExtendNothing(path: Option<seq<Artifact>>)
    ensures Extend(path, []) == path
  {
    if path.Some? {
      assert path.value + [] == path.value;
    }
  }

  lemma ExtendTwice(path: Option<seq<Artifact>>, a: seq<Artifact>, b: seq<Artifact>)
    ensures Extend(Extend(path, a), b) == Extend(path, a + b)
  {
    if path.Some? {
      assert path.value + a + b == path.value + (a + b);
    }
  }

  /** The project's own node, which holds no artifact, has the empty chain. */
  lemma RootChain(nodes: Nodes)
    requires ParentsBefore(nodes) && |nodes| > 0 && nodes[0].data == null
    ensures ChainString(nodes, 0) == Success("")
  {
  }

  /**
   * In a tree whose only node without an artifact is the root, no chain throws: the chain of
   * every other node is `pom` and one link per node on the way down from the root to it.
   */
  lemma {:induction false} ChainReachesRoot(nodes: Nodes, m: nat)
    requires ParentsBefore(nodes) && 0 < m < |nodes|
    requires nodes[0].data == null && forall k :: 0 < k < |nodes| ==> nodes[k].data != null && nodes[k].parent.Some?
    ensures Path(nodes, m).Some? && |Path(nodes, m).value| == Level(nodes, m)
    ensures Path(nodes, m).value[|Path(nodes, m).value| - 1] == nodes[m].data.artifact
    decreases m
  {
    var p := nodes[m].parent.value;
    var a := nodes[m].data.artifact;
    if p != 0 {
      ChainReachesRoot(nodes, p);
      assert Path(nodes, m) == Some(Path(nodes, p).value + [a]);
    } else {
      assert Path(nodes, p) == Some([]);
      assert Path(nodes, m) == Some([] + [a]);
    }
  }

  /** A project with dependency `a:b`, which has dependency `c:d`. */
  function ExampleNodes(ab: AyoyArtifact, cd: AyoyArtifact): Nodes
  {
    [Node(null, None, [1], [0, 1, 2]), Node(ab, Some(0), [2], [1, 2]), Node(cd, Some(1), [], [2])]
  }

  /**
   * In that tree the chain of `c:d` is `pom -> a:b -> c:d`. A single example: the property over
   * all trees is `ChainReachesRoot`.
   */
  lemma ChainExample(ab: AyoyArtifact, cd: AyoyArtifact)
    requires ab.artifact == Artifact("a", "b", "1.0", None) && cd.artifact == Artifact("c", "d", "2.0", None)
    ensures ParentsBefore(ExampleNodes(ab, cd))
    ensures ChainString(ExampleNodes(ab, cd), 2) == Success("pom -> a:b -> c:d")
  {
    ExamplePath(ab, cd);
    ExampleLinks(ab.artifact, cd.artifact);
  }

  /** The example's walk from `c:d` up to the project: the path `a:b`, `c:d`. An instance of `ChainReachesRoot`. */
  lemma ExamplePath(ab: AyoyArtifact, cd: AyoyArtifact)
    ensures ParentsBefore(ExampleNodes(ab, cd))
    ensures Path(ExampleNodes(ab, cd), 2) == Some([ab.artifact, cd.artifact])
  {
    var nodes := ExampleNodes(ab, cd);
    assert nodes[1].data == ab && nodes[2].data == cd;
    assert Path(nodes, 0) == Some([]);
    assert Path(nodes, 1) == Some([] + [ab.artifact]);
    assert [] + [ab.artifact] == [ab.artifact];
    assert Path(nodes, 2) == Some([ab.artifact] + [cd.artifact]);
    assert [ab.artifact] + [cd.artifact] == [ab.artifact, cd.artifact];
  }

  /** The example's links written out; an instance of `LinksAppend`. */
  lemma ExampleLinks(a: Artifact, c: Artifact)
    requires a == Artifact("a", "b", "1.0", None) && c == Artifact("c", "d", "2.0", None)
    ensures "pom" + Links([a, c]) == "pom -> a:b -> c:d"
  {
    assert [a, c][..1] == [a] && [a][..0] == [];
    assert Links([a]) == "" + Link(a) == Link(a);
    assert Links([a, c]) == Links([a]) + Link(c);
    assert Link(a) == " -> a:b";
    assert Link(c) == " -> c:d";
    assert "pom" + (" -> a:b" + " -> c:d") == "pom -> a:b -> c:d";
  }
}
