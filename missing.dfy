/**
 * The exclusion list for artifacts without license information: each entry names a
 * (groupId, artifactId, version) triple read from a `dependency` element of an XML file.
 * The XML parser is not modelled: a parsed document is the sequence of its `dependency`
 * elements, each with its child elements as (name, text) records.
 */
module MissingLicenses {
  import opened Wrappers
  import opened Maven
  import opened Model

  /** A child element: its node name and its text content. */
  datatype Child = Child(name: string, text: string)

  /** An element of the document: its node name and its children in document order. */
  datatype Element = Element(name: string, children: seq<Child>)

  /** The text of the last child called `name`; `None` when there is none. */
  function LastText(children: seq<Child>, name: string): (r: Option<string>)
    decreases |children|
  {
    if children == [] then None
    else if children[|children| - 1].name == name then Some(children[|children| - 1].text)
    else LastText(children[..|children| - 1], name)
  }

  /** The three fields of an entry, `None` standing for a field left `null`. */
  datatype Entry = Entry(groupId: Option<string>, artifactId: Option<string>, version: Option<string>)

  /** The fields the constructor extracts from the children of a node. */
  function Extract(children: seq<Child>): Entry
  {
    Entry(LastText(children, "groupId"), LastText(children, "artifactId"), LastText(children, "version"))
  }

  /** One exclusion, fixed at construction. */
  class ExcludedMissingLicense {
    const groupId: Option<string>
    const artifactId: Option<string>
    const version: Option<string>

    /**
     * The constructor's loop over the children: a child called `groupId`, `artifactId` or
     * `version` overwrites that field, any other child is skipped.
     */
    constructor (children: seq<Child>)
      ensures Entry(groupId, artifactId, version) == Extract(children)
    {
      var g: Option<string>, a: Option<string>, v: Option<string> := None, None, None;
      for i := 0 to |children|
        invariant g == LastText(children[..i], "groupId")
        invariant a == LastText(children[..i], "artifactId")
        invariant v == LastText(children[..i], "version")
      {
        var child := children[i];
        assert children[..i + 1][..i] == children[..i];
        if child.name == "groupId" {
          g := Some(child.text);
        } else if child.name == "artifactId" {
          a := Some(child.text);
        } else if child.name == "version" {
          v := Some(child.text);
        }
      }
      assert children[..|children|] == children;
      groupId, artifactId, version := g, a, v;
    }

    /** The constructor's `null` check: `null` for the node is a NullPointerException. */
    static method Create(node: Option<seq<Child>>) returns (r: Result<ExcludedMissingLicense, Exception>)
      ensures node.None? <==> r.Failure?
      ensures node.None? ==> r.error == NullPointer("Node cannot be null")
      ensures node.Some? ==> fresh(r.value) && Entry(r.value.groupId, r.value.artifactId, r.value.version) == Extract(node.value)
    {
      if node.None? {
        return Failure(NullPointer("Node cannot be null"));
      }
      var info := new ExcludedMissingLicense(node.value);
      return Success(info);
    }

    function GetEntry(): Entry
    {
      Entry(groupId, artifactId, version)
    }
  }

  const MissingGroupIdWarning := "Found entry in file for excluded missing licenses with missing groupId"
  const MissingArtifactIdWarning := "Found entry in file for excluded missing licenses with missing artifactId"
  const MissingVersionWarning := "Found entry in file for excluded missing licenses with missing version"

  /** The warning `parseInfos` logs for an entry: the first missing field in the order groupId, artifactId, version. */
  function Warning(e: Entry): Option<string>
  {
    if e.groupId.None? then Some(MissingGroupIdWarning)
    else if e.artifactId.None? then Some(MissingArtifactIdWarning)
    else if e.version.None? then Some(MissingVersionWarning)
    else None
  }

  predicate Complete(e: Entry)
  {
    e.groupId.Some? && e.artifactId.Some? && e.version.Some?
  }

  /** The entries `parseInfos` keeps, in document order: those of `dependency` elements with no field missing. */
  function Kept(nodes: seq<Element>): seq<Entry>
    decreases |nodes|
  {
    if nodes == [] then []
    else
      var node := nodes[|nodes| - 1];
      Kept(nodes[..|nodes| - 1]) + if node.name == "dependency" && Warning(Extract(node.children)).None? then [Extract(node.children)] else []
  }

  /** The warnings `parseInfos` logs, in document order. */
  function Warnings(nodes: seq<Element>): seq<string>
    decreases |nodes|
  {
    if nodes == [] then []
    else
      var node := nodes[|nodes| - 1];
      var w := Warning(Extract(node.children));
      Warnings(nodes[..|nodes| - 1]) + if node.name == "dependency" && w.Some? then [w.value] else []
  }

  function Entries(infos: seq<ExcludedMissingLicense>): (r: seq<Entry>)
    ensures |r| == |infos| && forall k :: 0 <= k < |infos| ==> r[k] == infos[k].GetEntry()
  {
    seq(|infos|, k requires 0 <= k < |infos| => infos[k].GetEntry())
  }

  /** Whether some entry equals the artifact on all of groupId, artifactId and version. */
  predicate Excludes(e: Entry, a: Artifact)
  {
    e.groupId == Some(a.groupId) && e.artifactId == Some(a.artifactId) && e.version == Some(a.version)
  }

  /** The search loop of `isExcluded`, returning at the first entry naming the artifact. */
  function AnyExcludes(entries: seq<Entry>, a: Artifact): (r: bool)
    ensures r <==> exists k :: 0 <= k < |entries| && Excludes(entries[k], a)
  {
    if entries == [] then false
    else if Excludes(entries[0], a) then true
    else
      assert forall k :: 1 <= k < |entries| ==> entries[k] == entries[1..][k - 1];
      AnyExcludes(entries[1..], a)
  }

  /**
   * The exclusion file: the kept entries, and the warnings logged while reading it, in order.
   * Every kept entry has all three fields.
   */
  class ExcludedMissingLicenseFile {
    var missingInfos: seq<ExcludedMissingLicense>
    var warnings: seq<string>

    ghost predicate Valid()
      reads this
    {
      forall k :: 0 <= k < |missingInfos| ==> Complete(missingInfos[k].GetEntry())
    }

    constructor Empty()
      ensures missingInfos == [] && warnings == [] && Valid()
    {
      missingInfos := [];
      warnings := [];
    }

    /**
     * The constructor: a `null` path gives an empty list; a path naming no file is a
     * FileNotFoundException; a document the parser rejects is a MojoExecutionException with
     * the parser's message; otherwise the entries of the document are read.
     */
    static method Open(path: Option<string>, fileExists: string -> bool, document: Result<seq<Element>, string>)
      returns (r: Result<ExcludedMissingLicenseFile, Exception>)
      ensures path.None? ==> r.Success? && fresh(r.value) && r.value.missingInfos == [] && r.value.warnings == []
      ensures path.Some? && !fileExists(path.value) ==> r == Failure(FileNotFound(path.value))
      ensures path.Some? && fileExists(path.value) && document.Failure? ==> r == Failure(MojoExecution(document.error))
      ensures path.Some? && fileExists(path.value) && document.Success? ==>
        r.Success? && fresh(r.value) && r.value.Valid() &&
        Entries(r.value.missingInfos) == Kept(document.value) && r.value.warnings == Warnings(document.value)
    {
      var file := new ExcludedMissingLicenseFile.Empty();
      if path.None? {
        return Success(file);
      }
      if !fileExists(path.value) {
        return Failure(FileNotFound(path.value));
      }
      if document.Failure? {
        return Failure(MojoExecution(document.error));
      }
      file.ParseInfos(document.value);
      return Success(file);
    }

    /** `parseInfos`: each `dependency` element with all three fields is appended; the others are warned about. */
    method ParseInfos(nodes: seq<Element>)
      requires Valid()
      modifies this
      ensures Valid()
      ensures Entries(missingInfos) == old(Entries(missingInfos)) + Kept(nodes)
      ensures warnings == old(warnings) + Warnings(nodes)
    {
      ghost var infos0, warnings0 := Entries(missingInfos), warnings;
      assert nodes[..0] == [];
      for i := 0 to |nodes|
        invariant Valid()
        invariant Entries(missingInfos) == infos0 + Kept(nodes[..i])
        invariant warnings == warnings0 + Warnings(nodes[..i])
      {
        ParseNode(nodes, i, infos0, warnings0);
      }
      assert nodes[..|nodes|] == nodes;
    }

    /** One round of the loop of `parseInfos`. */
    method ParseNode(nodes: seq<Element>, i: nat, ghost infos0: seq<Entry>, ghost warnings0: seq<string>)
      requires i < |nodes| && Valid()
      requires Entries(missingInfos) == infos0 + Kept(nodes[..i]) && warnings == warnings0 + Warnings(nodes[..i])
      modifies this
      ensures Valid()
      ensures Entries(missingInfos) == infos0 + Kept(nodes[..i + 1]) && warnings == warnings0 + Warnings(nodes[..i + 1])
    {
      var node := nodes[i];
      assert nodes[..i + 1][..i] == nodes[..i];
      if node.name != "dependency" {
        Unchanged(infos0, Kept(nodes[..i]));
        Unchanged(warnings0, Warnings(nodes[..i]));
        return;
      }
      var info := new ExcludedMissingLicense(node.children);
      if info.groupId.None? {
        warnings := warnings + [MissingGroupIdWarning];
      } else if info.artifactId.None? {
        warnings := warnings + [MissingArtifactIdWarning];
      } else if info.version.None? {
        warnings := warnings + [MissingVersionWarning];
      } else {
        missingInfos := missingInfos + [info];
      }
      assert Entries(missingInfos) == old(Entries(missingInfos)) + (if Warning(info.GetEntry()).None? then [info.GetEntry()] else []);
      Snoc(infos0, Kept(nodes[..i]), if Warning(info.GetEntry()).None? then [info.GetEntry()] else []);
      Snoc(warnings0, Warnings(nodes[..i]), if Warning(info.GetEntry()).Some? then [Warning(info.GetEntry()).value] else []);
    }

    /** `isExcluded`: some entry names the artifact's groupId, artifactId and version; the list is only read. */
    function IsExcluded(artifact: AyoyArtifact): (r: bool)
      reads this
      ensures r <==> exists k :: 0 <= k < |missingInfos| && Excludes(missingInfos[k].GetEntry(), artifact.artifact)
    {
      AnyExcludes(Entries(missingInfos), artifact.artifact)
    }
  }

  lemma Unchanged<T>(a: seq<T>, b: seq<T>)
    ensures a + b + [] == a + b
  {
  }

  lemma Snoc<T>(a: seq<T>, b: seq<T>, c: seq<T>)
    ensures a + b + c == a + (b + c)
  {
  }

  /** The last child with the name gives the field: its text, when no later child has that name. */
  lemma {:induction false} LastWins(front: seq<Child>, t: string, back: seq<Child>, name: string)
    requires forall k :: 0 <= k < |back| ==> back[k].name != name
    ensures LastText(front + [Child(name, t)] + back, name) == Some(t)
    decreases |back|
  {
    if back == [] {
      assert front + [Child(name, t)] + back == front + [Child(name, t)];
    } else {
      var init := back[..|back| - 1];
      assert (front + [Child(name, t)] + back)[..|front| + 1 + |back| - 1] == front + [Child(name, t)] + init;
      LastWins(front, t, init, name);
    }
  }

  /** A field stays `null` exactly when no child has its name. */
  lemma {:induction false} NoChildNoField(children: seq<Child>, name: string)
    ensures LastText(children, name).None? <==> forall k :: 0 <= k < |children| ==> children[k].name != name
    decreases |children|
  {
    if children != [] {
      var init := children[..|children| - 1];
      NoChildNoField(init, name);
      assert forall k :: 0 <= k < |init| ==> init[k] == children[k];
    }
  }

  /** A field, when set, is the text of a child with that name after which no child has that name. */
  lemma {:induction false} FieldFromLastChild(children: seq<Child>, name: string)
    requires LastText(children, name).Some?
    ensures exists k ::
              0 <= k < |children| && children[k] == Child(name, LastText(children, name).value) &&
              forall j :: k < j < |children| ==> children[j].name != name
    decreases |children|
  {
    var last := |children| - 1;
    var init := children[..last];
    if children[last].name != name {
      FieldFromLastChild(init, name);
      assert forall k :: 0 <= k < |init| ==> init[k] == children[k];
    } else {
      assert children[last] == Child(name, LastText(children, name).value);
    }
  }

  /** A child with any other name than the three fields changes nothing, wherever it stands. */
  lemma {:induction false} OtherChildIgnored(front: seq<Child>, c: Child, back: seq<Child>)
    requires c.name != "groupId" && c.name != "artifactId" && c.name != "version"
    ensures Extract(front + [c] + back) == Extract(front + back)
  {
    SkipChild(front, c, back, "groupId");
    SkipChild(front, c, back, "artifactId");
    SkipChild(front, c, back, "version");
  }

  lemma {:induction false} SkipChild(front: seq<Child>, c: Child, back: seq<Child>, name: string)
    requires c.name != name
    ensures LastText(front + [c] + back, name) == LastText(front + back, name)
    decreases |back|
  {
    if back == [] {
      assert (front + [c] + back)[..|front|] == front;
      assert front + back == front;
    } else {
      var init := back[..|back| - 1];
      assert (front + [c] + back)[..|front| + 1 + |back| - 1] == front + [c] + init;
      assert (front + back)[..|front| + |back| - 1] == front + init;
      SkipChild(front, c, init, name);
    }
  }

  /** The warning names the first missing field, in the order groupId, artifactId, version, and there is none exactly for a complete entry. */
  lemma WarningOrder(e: Entry)
    ensures Warning(e) == Some(MissingGroupIdWarning) <==> e.groupId.None?
    ensures Warning(e) == Some(MissingArtifactIdWarning) <==> e.groupId.Some? && e.artifactId.None?
    ensures Warning(e) == Some(MissingVersionWarning) <==> e.groupId.Some? && e.artifactId.Some? && e.version.None?
    ensures Warning(e).None? <==> Complete(e)
  {
  }

  /** Reading two parts of a document one after the other keeps the entries of each in document order. */
  lemma {:induction false} KeptAppend(a: seq<Element>, b: seq<Element>)
    ensures Kept(a + b) == Kept(a) + Kept(b)
    decreases |b|
  {
    if b == [] {
      assert a + b == a;
    } else {
      var init := b[..|b| - 1];
      assert (a + b)[..|a + b| - 1] == a + init;
      assert (a + b)[|a + b| - 1] == b[|b| - 1];
      KeptAppend(a, init);
      var node := b[|b| - 1];
      Snoc(Kept(a), Kept(init), if node.name == "dependency" && Warning(Extract(node.children)).None? then [Extract(node.children)] else []);
    }
  }

  /** An entry is kept exactly when some `dependency` element of the document yields it with all three fields. */
  lemma {:induction false} KeptMembers(nodes: seq<Element>, e: Entry)
    ensures e in Kept(nodes) <==>
      exists k :: 0 <= k < |nodes| && nodes[k].name == "dependency" && Extract(nodes[k].children) == e && Complete(e)
    decreases |nodes|
  {
    if nodes != [] {
      var init := nodes[..|nodes| - 1];
      KeptMembers(init, e);
      assert forall k :: 0 <= k < |init| ==> init[k] == nodes[k];
    }
  }

  /** The number of `dependency` elements of a document. */
  function Dependencies(nodes: seq<Element>): nat
    decreases |nodes|
  {
    if nodes == [] then 0 else Dependencies(nodes[..|nodes| - 1]) + if nodes[|nodes| - 1].name == "dependency" then 1 else 0
  }

  /** Each `dependency` element is either kept or warned about, never both. */
  lemma {:induction false} KeptOrWarned(nodes: seq<Element>)
    ensures |Kept(nodes)| + |Warnings(nodes)| == Dependencies(nodes)
    decreases |nodes|
  {
    if nodes != [] {
      KeptOrWarned(nodes[..|nodes| - 1]);
    }
  }
}
