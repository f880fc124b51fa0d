/**
 * The Maven types the plugin consumes, reduced to the fields the license audit reads.
 * Their behaviour (project building, artifact resolution) is supplied by parameters
 * of the operations that use them.
 */
module Maven {
  import opened Wrappers

  /** A resolved Maven artifact; `scope` is `None` when Maven reports no scope. */
  datatype Artifact = Artifact(groupId: string, artifactId: string, version: string, scope: Option<string>)

  /** A license declared in a POM; name and url are both optional. */
  datatype License = License(name: Option<string>, url: Option<string>)

  /** A node of the dependency graph Maven hands to a visitor. */
  datatype DependencyNode = DependencyNode(artifact: Artifact, children: seq<DependencyNode>)

  /** The exceptions the core throws, each with its message. */
  datatype Exception =
    | MojoExecution(message: string)
    | NullPointer(message: string)
    | IllegalArgument(message: string)
    | FileNotFound(path: string)

  /** Number of nodes of a dependency graph. */
  function Size(d: DependencyNode): (r: nat)
    ensures r >= 1
  {
    1 + SizeAll(d.children)
  }

  function SizeAll(ds: seq<DependencyNode>): nat
  {
    if ds == [] then 0 else SizeAll(ds[..|ds| - 1]) + Size(ds[|ds| - 1])
  }
}
