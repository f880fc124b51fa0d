/**
 * `TreeNodeVisualizer`: the dependency tree as text, one line per artifact, indented by the
 * node's level, with the trailing white space of every rendered subtree removed as Java's
 * `replaceAll("\\s+$", "")` removes it.
 */
module Visualize {
  import opened Wrappers
  import opened Maven
  import opened Licenses
  import opened Model
  import opened Resolver
  import opened Classify

  /** The characters of the regular-expression class `\s`: space, tab, line feed, vertical tab, form feed, carriage return. */
  predicate IsSpace(c: char)
  {
    c == ' ' || c == '\t' || c == '\n' || c == '\U{000B}' || c == '\U{000C}' || c == '\r'
  }

  predicate AllSpace(s: string)
  {
    forall k :: 0 <= k < |s| ==> IsSpace(s[k])
  }

  /**
   * The characters besides those of `\s` before which Java's `$` also matches at the end of the
   * text: NEXT LINE, LINE SEPARATOR and PARAGRAPH SEPARATOR. The other line terminators (line
   * feed, carriage return and the pair of both) are in `\s`.
   */
  predicate IsLineEnd(c: char)
  {
    c == '\U{0085}' || c == '\U{2028}' || c == '\U{2029}'
  }

  /** `r` is `s` with its longest run of trailing white space cut off. */
  predicate Trimmed(s: string, r: string)
  {
    |r| <= |s| && r == s[..|r|] && (r == [] || !IsSpace(r[|r| - 1])) && AllSpace(s[|r|..])
  }

  /** The text without its trailing white space. */
  function DropSpaces(s: string): (r: string)
    ensures Trimmed(s, r)
    decreases |s|
  {
    if s != [] && IsSpace(s[|s| - 1]) then
      var r := DropSpaces(s[..|s| - 1]);
      assert s[..|s| - 1][|r|..] + [s[|s| - 1]] == s[|r|..];
      r
    else s
  }

  /**
   * `replaceAll("\\s+$", "")`. Without MULTILINE, `$` matches at the end of the text and just
   * before a line terminator that ends it. So a text ending in NEXT LINE, LINE SEPARATOR or
   * PARAGRAPH SEPARATOR loses the white space before that last character and keeps it; any other
   * text loses its trailing white space.
   */
  function StripTrailing(s: string): (r: string)
    ensures s != [] && IsLineEnd(s[|s| - 1]) ==>
      r != [] && r[|r| - 1] == s[|s| - 1] && Trimmed(s[..|s| - 1], r[..|r| - 1])
    ensures !(s != [] && IsLineEnd(s[|s| - 1])) ==> Trimmed(s, r)
    ensures r == [] || !IsSpace(r[|r| - 1])
  {
    if s != [] && IsLineEnd(s[|s| - 1]) then
      var r := DropSpaces(s[..|s| - 1]) + [s[|s| - 1]];
      assert r[..|r| - 1] == DropSpaces(s[..|s| - 1]);
      r
    else DropSpaces(s)
  }

  /** Whether the text ends in white space followed by one of the extra line terminators. */
  predicate SpaceBeforeLineEnd(s: string)
  {
    |s| >= 2 && IsLineEnd(s[|s| - 1]) && IsSpace(s[|s| - 2])
  }

  /**
   * The texts stripping leaves alone: exactly those that neither end in white space nor in white
   * space followed by NEXT LINE, LINE SEPARATOR or PARAGRAPH SEPARATOR.
   */
  lemma StripKeepsText(s: string)
    ensures StripTrailing(s) == s <==> (s == [] || !IsSpace(s[|s| - 1])) && !SpaceBeforeLineEnd(s)
  {
    if s != [] && IsLineEnd(s[|s| - 1]) {
      var init := s[..|s| - 1];
      if !SpaceBeforeLineEnd(s) {
        assert DropSpaces(init) == init;
        assert init + [s[|s| - 1]] == s;
      }
      if StripTrailing(s) == s {
        assert DropSpaces(init) == StripTrailing(s)[..|s| - 1];
      }
    }
  }

  /** A text without NEXT LINE, LINE SEPARATOR or PARAGRAPH SEPARATOR: stripping twice is stripping once. */
  lemma StripIdempotent(s: string)
    requires forall k :: 0 <= k < |s| ==> !IsLineEnd(s[k])
    ensures StripTrailing(StripTrailing(s)) == StripTrailing(s)
  {
    StripKeepsText(StripTrailing(s));
  }

  /**
   * With the extra line terminators stripping is not idempotent: the first pass cuts the final
   * space, and the second the space that then stands before the LINE SEPARATOR.
   */
  lemma StripTwiceDiffers()
    ensures StripTrailing("a \U{2028} ") == "a \U{2028}"
    ensures StripTrailing("a \U{2028}") == "a\U{2028}"
  {
    assert DropSpaces("a \U{2028} ") == DropSpaces("a \U{2028}");
    assert "a \U{2028}"[..2] == "a ";
    assert DropSpaces("a ") == DropSpaces("a");
  }

  lemma Assoc(x: string, y: string, z: string)
    ensures x + y + z == x + (y + z)
  {
  }

  /** Two spaces per level. */
  function Spaces(level: nat): (r: string)
    ensures |r| == 2 * level && AllSpace(r)
    ensures forall k :: 0 <= k < |r| ==> r[k] == ' '
  {
    if level == 0 then "" else Spaces(level - 1) + "  "
  }

  /** `indent`: two spaces appended per level of the node. */
  method Indent(toReturn: string, level: nat) returns (r: string)
    ensures r == toReturn + Spaces(level)
  {
    r := toReturn;
    for i := 0 to level
      invariant r == toReturn + Spaces(i)
    {
      r := r + "  ";
    }
  }

  /** The text of one classification: the status constant, then the name (`null` when absent), with no separator. */
  function InfoText(info: LicenseInfo): string
  {
    StatusName(info.status) + NullableText(info.name)
  }

  function InfosText(infos: seq<LicenseInfo>): string
    decreases |infos|
  {
    if infos == [] then "" else InfosText(infos[..|infos| - 1]) + InfoText(infos[|infos| - 1])
  }

  /** `groupId:artifactId:version`, then the text of each classification in order. */
  function Format(a: Artifact, infos: seq<LicenseInfo>): string
  {
    a.groupId + ":" + a.artifactId + ":" + a.version + InfosText(infos)
  }

  /** `formatAyoyArtifact`: the coordinates, then the loop over the classifications. */
  method FormatAyoyArtifact(ayoyArtifact: AyoyArtifact) returns (r: string)
    ensures r == Format(ayoyArtifact.artifact, ayoyArtifact.licenseInfos)
  {
    var artifact := ayoyArtifact.artifact;
    r := artifact.groupId + ":" + artifact.artifactId + ":" + artifact.version;
    ghost var coordinates := r;
    var licenseInfos := ayoyArtifact.licenseInfos;
    for i := 0 to |licenseInfos|
      invariant r == coordinates + InfosText(licenseInfos[..i])
    {
      assert licenseInfos[..i + 1][..i] == licenseInfos[..i];
      Assoc(coordinates, InfosText(licenseInfos[..i]), InfoText(licenseInfos[i]));
      r := r + (StatusName(licenseInfos[i].status) + NullableText(licenseInfos[i].name));
    }
    assert licenseInfos[..|licenseInfos|] == licenseInfos;
  }

  /**
   * The nodes the renderer may format: every node but the root holds an artifact, and `infos`
   * lists the classifications attached to the artifact of each node.
   */
  ghost predicate Renderable(nodes: Nodes, infos: seq<seq<LicenseInfo>>)
  {
    WellFormed(nodes) && |infos| == |nodes| && forall m :: 0 < m < |nodes| ==> nodes[m].data != null
  }

  /** The line of node `n` itself: none at depth 0, else the indentation, the artifact and a separator. */
  ghost function Line(nodes: Nodes, infos: seq<seq<LicenseInfo>>, n: nat, depth: int, sep: string): string
    requires Renderable(nodes, infos) && n < |nodes| && (depth > 0 ==> nodes[n].data != null)
  {
    if depth > 0 then Spaces(Level(nodes, n)) + Format(nodes[n].data.artifact, infos[n]) + sep else ""
  }

  /** What `visualize(node, depth)` returns, with `sep` the platform's line separator. */
  ghost function Render(nodes: Nodes, infos: seq<seq<LicenseInfo>>, n: nat, depth: int, sep: string): string
    requires Renderable(nodes, infos) && n < |nodes| && (depth > 0 ==> nodes[n].data != null)
    decreases |nodes| - n, 1
  {
    StripTrailing(Line(nodes, infos, n, depth, sep) + RenderAll(nodes, infos, n, depth, sep, nodes[n].children))
  }

  /** The children `kids` of `n`, each rendered one level deeper and followed by a separator. */
  ghost function RenderAll(nodes: Nodes, infos: seq<seq<LicenseInfo>>, n: nat, depth: int, sep: string, kids: seq<nat>): string
    requires Renderable(nodes, infos) && n < |nodes|
    requires forall k :: 0 <= k < |kids| ==> n < kids[k] < |nodes|
    decreases |nodes| - n, 0, |kids|
  {
    if kids == [] then ""
    else
      var last := kids[|kids| - 1];
      RenderAll(nodes, infos, n, depth, sep, kids[..|kids| - 1]) + Render(nodes, infos, last, depth + 1, sep) + sep
  }

  /**
   * `visualize`: the node's own line when the depth is positive, then each child rendered one
   * level deeper followed by a separator, and the trailing white space removed.
   */
  method Visualize(tree: Tree<AyoyArtifact?>, n: nat, depth: int, sep: string, ghost infos: seq<seq<LicenseInfo>>) returns (r: string)
    requires tree.Valid() && n < |tree.nodes|
    requires forall m :: 0 < m < |tree.nodes| ==> tree.nodes[m].data != null
    requires depth > 0 ==> tree.nodes[n].data != null
    requires |infos| == |tree.nodes|
    requires forall m :: 0 <= m < |tree.nodes| && tree.nodes[m].data != null ==> tree.nodes[m].data.licenseInfos == infos[m]
    ensures r == Render(tree.nodes, infos, n, depth, sep)
    ensures r == [] || !IsSpace(r[|r| - 1])
    decreases |tree.nodes| - n, 1
  {
    var toReturn := "";
    if depth > 0 {
      toReturn := Indent(toReturn, Level(tree.nodes, n));
      var text := FormatAyoyArtifact(tree.nodes[n].data);
      toReturn := toReturn + text;
      toReturn := toReturn + sep;
    }
    RenderLine(tree.nodes, infos, n, depth, sep, toReturn);
    ghost var line := toReturn;
    var kids := tree.nodes[n].children;
    ChildrenInRange(tree.nodes, n);
    RenderStart(tree.nodes, infos, n, depth, sep, kids, line);
    for i := 0 to |kids|
      invariant toReturn == line + RenderAll(tree.nodes, infos, n, depth, sep, kids[..i])
    {
      toReturn := VisualizeChild(tree, n, depth, sep, infos, kids, i, line, toReturn);
    }
    RenderEnd(tree.nodes, infos, n, depth, sep, line, toReturn);
    r := StripTrailing(toReturn);
  }

  /** One round of the loop of `visualize`: the next child rendered one level deeper, then a separator. */
  method VisualizeChild(tree: Tree<AyoyArtifact?>, n: nat, depth: int, sep: string, ghost infos: seq<seq<LicenseInfo>>,
                        kids: seq<nat>, i: nat, ghost line: string, toReturn: string) returns (r: string)
    requires tree.Valid() && n < |tree.nodes|
    requires forall m :: 0 < m < |tree.nodes| ==> tree.nodes[m].data != null
    requires |infos| == |tree.nodes|
    requires forall m :: 0 <= m < |tree.nodes| && tree.nodes[m].data != null ==> tree.nodes[m].data.licenseInfos == infos[m]
    requires forall k :: 0 <= k < |kids| ==> n < kids[k] < |tree.nodes|
    requires i < |kids| && toReturn == line + RenderAll(tree.nodes, infos, n, depth, sep, kids[..i])
    ensures r == line + RenderAll(tree.nodes, infos, n, depth, sep, kids[..i + 1])
    decreases |tree.nodes| - n, 0
  {
    var child := Visualize(tree, kids[i], depth + 1, sep, infos);
    RenderStep(tree.nodes, infos, n, depth, sep, kids, i, line, toReturn, child);
    r := toReturn + (child + sep);
  }

  lemma RenderLine(nodes: Nodes, infos: seq<seq<LicenseInfo>>, n: nat, depth: int, sep: string, text: string)
    requires Renderable(nodes, infos) && n < |nodes| && (depth > 0 ==> nodes[n].data != null)
    requires depth > 0 ==> text == "" + Spaces(Level(nodes, n)) + Format(nodes[n].data.artifact, infos[n]) + sep
    requires depth <= 0 ==> text == ""
    ensures text == Line(nodes, infos, n, depth, sep)
  {
    if depth > 0 {
      assert "" + Spaces(Level(nodes, n)) == Spaces(Level(nodes, n));
    }
  }

  lemma RenderStart(nodes: Nodes, infos: seq<seq<LicenseInfo>>, n: nat, depth: int, sep: string, kids: seq<nat>, line: string)
    requires Renderable(nodes, infos) && n < |nodes|
    requires forall k :: 0 <= k < |kids| ==> n < kids[k] < |nodes|
    ensures line == line + RenderAll(nodes, infos, n, depth, sep, kids[..0])
  {
    assert kids[..0] == [];
  }

  lemma RenderStep(nodes: Nodes, infos: seq<seq<LicenseInfo>>, n: nat, depth: int, sep: string, kids: seq<nat>, i: nat,
                   line: string, before: string, child: string)
    requires Renderable(nodes, infos) && n < |nodes|
    requires forall k :: 0 <= k < |kids| ==> n < kids[k] < |nodes|
    requires i < |kids| && before == line + RenderAll(nodes, infos, n, depth, sep, kids[..i])
    requires child == Render(nodes, infos, kids[i], depth + 1, sep)
    ensures before + (child + sep) == line + RenderAll(nodes, infos, n, depth, sep, kids[..i + 1])
  {
    RenderAllSnoc(nodes, infos, n, depth, sep, kids, i);
    Regroup(line, RenderAll(nodes, infos, n, depth, sep, kids[..i]), child, sep);
  }

  lemma RenderAllSnoc(nodes: Nodes, infos: seq<seq<LicenseInfo>>, n: nat, depth: int, sep: string, kids: seq<nat>, i: nat)
    requires Renderable(nodes, infos) && n < |nodes|
    requires forall k :: 0 <= k < |kids| ==> n < kids[k] < |nodes|
    requires i < |kids|
    ensures RenderAll(nodes, infos, n, depth, sep, kids[..i + 1]) ==
      RenderAll(nodes, infos, n, depth, sep, kids[..i]) + Render(nodes, infos, kids[i], depth + 1, sep) + sep
  {
    assert kids[..i + 1][..i] == kids[..i];
  }

  lemma Regroup(line: string, done: string, child: string, sep: string)
    ensures line + done + (child + sep) == line + (done + child + sep)
  {
    Assoc(line, done, child + sep);
    Assoc(done, child, sep);
  }

  lemma RenderEnd(nodes: Nodes, infos: seq<seq<LicenseInfo>>, n: nat, depth: int, sep: string, line: string, text: string)
    requires Renderable(nodes, infos) && n < |nodes| && (depth > 0 ==> nodes[n].data != null)
    requires forall k :: 0 <= k < |nodes[n].children| ==> n < nodes[n].children[k] < |nodes|
    requires line == Line(nodes, infos, n, depth, sep)
    requires text == line + RenderAll(nodes, infos, n, depth, sep, nodes[n].children[..|nodes[n].children|])
    ensures StripTrailing(text) == Render(nodes, infos, n, depth, sep)
  {
    assert nodes[n].children[..|nodes[n].children|] == nodes[n].children;
  }

  /** The project's node with no dependencies renders as the empty text. */
  lemma ChildlessRootIsEmpty(nodes: Nodes, infos: seq<seq<LicenseInfo>>, sep: string)
    requires Renderable(nodes, infos) && |nodes| > 0 && nodes[0].children == []
    ensures Render(nodes, infos, 0, 0, sep) == ""
  {
  }

  /** Each subtree below depth 0 contributes its lines in child order: the children's renderings, each followed by a separator, form the text before stripping. */
  lemma {:induction false} RootRendersChildren(nodes: Nodes, infos: seq<seq<LicenseInfo>>, sep: string, kids: seq<nat>)
    requires Renderable(nodes, infos) && |nodes| > 0 && kids == nodes[0].children
    ensures Render(nodes, infos, 0, 0, sep) == StripTrailing(RenderAll(nodes, infos, 0, 0, sep, kids))
  {
    assert Line(nodes, infos, 0, 0, sep) == "";
    assert "" + RenderAll(nodes, infos, 0, 0, sep, kids) == RenderAll(nodes, infos, 0, 0, sep, kids);
  }

  /**
   * A node without children at a positive depth renders as one line: twice its level in spaces,
   * then `groupId:artifactId:version` and its classifications, when that text does not end in
   * white space and the separator is non-empty white space. With an empty separator the line is
   * stripped on its own.
   */
  lemma LeafLine(nodes: Nodes, infos: seq<seq<LicenseInfo>>, n: nat, depth: int, sep: string)
    requires Renderable(nodes, infos) && n < |nodes| && depth > 0 && nodes[n].data != null
    requires nodes[n].children == [] && AllSpace(sep)
    requires var t := Format(nodes[n].data.artifact, infos[n]); t != [] && !IsSpace(t[|t| - 1])
    ensures sep != [] ==> Render(nodes, infos, n, depth, sep) == Spaces(Level(nodes, n)) + Format(nodes[n].data.artifact, infos[n])
    ensures sep == [] ==> Render(nodes, infos, n, depth, sep) == StripTrailing(Spaces(Level(nodes, n)) + Format(nodes[n].data.artifact, infos[n]))
  {
    var text := Spaces(Level(nodes, n)) + Format(nodes[n].data.artifact, infos[n]);
    StripSpaceTail(text, sep);
    assert Line(nodes, infos, n, depth, sep) + RenderAll(nodes, infos, n, depth, sep, []) == text + sep;
  }

  /**
   * Stripping a non-empty white-space tail from a text that does not end in white space gives the
   * text back; an empty tail leaves the text to be stripped on its own.
   */
  lemma {:induction false} StripSpaceTail(text: string, tail: string)
    requires (text == [] || !IsSpace(text[|text| - 1])) && AllSpace(tail)
    ensures StripTrailing(text + tail) == if tail == [] then StripTrailing(text) else text
  {
    if tail == [] {
      assert text + tail == text;
    } else {
      DropSpaceTail(text, tail);
    }
  }

  lemma {:induction false} DropSpaceTail(text: string, tail: string)
    requires (text == [] || !IsSpace(text[|text| - 1])) && AllSpace(tail)
    ensures DropSpaces(text + tail) == text
    decreases |tail|
  {
    if tail == [] {
      assert text + tail == text;
    } else {
      assert (text + tail)[..|text + tail| - 1] == text + tail[..|tail| - 1];
      DropSpaceTail(text, tail[..|tail| - 1]);
    }
  }
}
