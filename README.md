# License audit engine of the Ayoy Maven License Verifier plugin, in Dafny

This project models the license-audit engine of the Ayoy Maven License Verifier plugin and
proves properties of that model. The plugin's `verify` goal works in these steps:

- **Collect.** It collects the project's dependencies (the direct ones outside the excluded
  scopes, each followed by its transitive artifacts) and builds a dependency tree of
  `AyoyArtifact` objects.
- **Prune.** It removes subtrees whose artifact is not to be included.
- **Fetch.** It fetches the declared licenses of every artifact.
- **Classify.** It classifies every license against a policy table. A license the table does
  not list becomes a new UNKNOWN entry and is appended to the table.
- **Fold.** It folds the classifications into four flags.
- **Verdict.** It fails on the first enabled flag, in a fixed order.

Around those steps sit:

- the exclusion list for artifacts without licenses;
- the tree and the visitor that builds it;
- the tree renderer;
- the chain string;
- a deduplicating list and the log-text helpers.

Modules, one per file:

- `Wrappers` (`wrappers.dfy`): `Option` for Java's `null`, `Result` for a call that throws.
- `Maven` (`maven.dfy`): `Artifact`, `License`, `DependencyNode` and the exceptions thrown.
- `Licenses` (`licenses.dfy`): the four statuses, `LicenseInfo.hasLicenceInfo`, and the
  table class `LicenseInfoFile`.
- `Model` (`model.dfy`): the classes `AyoyArtifact` and `OverallStatus`.
- `Util` (`util.dfy`): the class `AyoyArtifactList` and `LogHelper`.
- `Resolver` (`tree.dfy`): `TreeNode`. The tree is an arena, a class holding one sequence
  of nodes. A node refers to its parent, its children and its search-index entries by
  position, so a Java node reference becomes a position.
- `Visitor` (`visitor.dfy`): the cursor class `LicenseDependencyNodeVisitor`.
- `Prune`, `CheckLicenses`, `Classify`, `Overall`, `Chain`: the tree passes of
  `LicenseVerifierMojo` (`removeFilteredArtifacts`, `checkForLicenses`,
  `determineArtifactStatus`, `calculateOverallStatus`, `getChainString`) and the verdict that
  ends `execute`.
  - Each pass is a recursive method that changes the artifacts or the tree in place.
  - Each is proved against a function: the state after the pass equals that function applied
    to the state before it.
  - The lemmas beside each function state what the pass promises.
- `Visualize` (`visualize.dfy`): `TreeNodeVisualizer`.
- `Collect` (`collect.dfy`): `matchesAnyScope`, `parseArtifacts`, `toAyoyArtifact` and
  `resolveTransitiveArtifact` of `LicenseAbstractMojo`.
- `MissingLicenses` (`missing.dfy`): `ExcludedMissingLicense` and
  `ExcludedMissingLicenseFile`.

The source files come from different revisions and do not compile together. The model
treats the members some of them use but none defines as follows:

- `AyoyArtifact.addLicenseInfo` and `LicenseInfoFile.addLicenseInfo`: "append".
- `AyoyArtifact.getLicenseInfos`: a `licenseInfos` field.
- `isLicenseValid(requireAllValid)` and `shouldArtifactBeIncluded`: predicates passed as
  parameters.
- `getLicenses`, `projectBuilder.build` and `repositorySystem.resolve`: functions passed as
  parameters.

## Model

| member | source | states |
|---|---|---|
| `Licenses.StatusName` | src/main/java/se/ayoy/maven/plugins/licenseverifier/LicenseInfo/LicenseInfoStatusEnum.java:6-23 | The status prints as its enum constant's name, one of VALID, WARNING, FORBIDDEN, UNKNOWN. |
| `Licenses.StatusNameInjective` | src/main/java/se/ayoy/maven/plugins/licenseverifier/LicenseInfo/LicenseInfoStatusEnum.java:6-23 | Two statuses with the same name are the same status. |
| `Licenses.MatchesConfigured` | src/main/java/se/ayoy/maven/plugins/licenseverifier/LicenseInfo/LicenseInfo.java:15-33 | One search loop of `hasLicenceInfo` is true iff the query is non-null and equals one of the configured values. A `null` entry never matches. |
| `Licenses.HasLicenceInfo` | src/main/java/se/ayoy/maven/plugins/licenseverifier/LicenseInfo/LicenseInfo.java:14-36 | True iff a non-null name is among the configured names, or a non-null url is among the configured urls. Otherwise false. |
| `Licenses.FirstMatch` | src/main/java/se/ayoy/maven/plugins/licenseverifier/LicenseInfo/LicenseInfoFile.java:23-31 | The result is a position whose entry matches, and no earlier entry matches. `None` only when no entry matches at all. |
| `Licenses.FirstMatchExtend` | src/main/java/se/ayoy/maven/plugins/licenseverifier/LicenseInfo/LicenseInfoFile.java:23-31 | Appending entries to a table that already has a match does not change the match found. |
| `Licenses.FirstMatchSkip` | src/main/java/se/ayoy/maven/plugins/licenseverifier/LicenseInfo/LicenseInfoFile.java:23-31 | Past a table without a match, the first match is the first match among the appended entries, shifted by the table's length. |
| `Licenses.LicenseInfoFile.Empty` | src/main/java/se/ayoy/maven/plugins/licenseverifier/LicenseInfo/LicenseInfoFile.java:9 | A new table has no entries. |
| `Licenses.LicenseInfoFile.Open` | src/main/java/se/ayoy/maven/plugins/licenseverifier/LicenseInfo/LicenseInfoFile.java:11-21 | A `null` path throws IllegalArgumentException("The path cannot be null"). A path naming no file throws FileNotFoundException(path). Otherwise the result is a fresh, empty table. |
| `Licenses.LicenseInfoFile.GetLicenseInfo` | src/main/java/se/ayoy/maven/plugins/licenseverifier/LicenseInfo/LicenseInfoFile.java:23-31 | `null` iff no entry matches (name, url). Otherwise the result is a table entry that matches, and no earlier entry matches. The table is only read. |
| `Licenses.LicenseInfoFile.AddLicenseInfo` | src/main/java/se/ayoy/maven/plugins/licenseverifier/LicenseVerifierMojo.java:225 | The entry is appended at the end of the table. |
| `Model.AyoyArtifact.constructor` | src/main/java/se/ayoy/maven/plugins/licenseverifier/model/AyoyArtifact.java:22-25 | The artifact is kept as given (a `const`). There are no licenses and no classifications. |
| `Model.AyoyArtifact.AddLicenses` | src/main/java/se/ayoy/maven/plugins/licenseverifier/model/AyoyArtifact.java:31-37 | `null` changes nothing. Otherwise the given licenses are appended in order after the existing ones. Only the license list may change. |
| `Model.AyoyArtifact.AddLicenseInfo` | src/main/java/se/ayoy/maven/plugins/licenseverifier/LicenseVerifierMojo.java:229 | One classification is appended. Only the classification list may change. |
| `Model.QuotedNamesFront` | src/main/java/se/ayoy/maven/plugins/licenseverifier/model/AyoyArtifact.java:57-67 | The `firstLic` loop of `toString` reads, from the front, as the first quoted name, then ", " and the rest. A single license has no separator. |
| `Model.OverallStatus.constructor` | src/main/java/se/ayoy/maven/plugins/licenseverifier/model/OverallStatus.java:7-10 | All four flags start false. |
| `Model.OverallStatus.SetHasNoLicense` | src/main/java/se/ayoy/maven/plugins/licenseverifier/model/OverallStatus.java:12-14 | The missing flag takes the value given. The other three flags are untouched. |
| `Model.OverallStatus.SetHasForbiddenLicense` | src/main/java/se/ayoy/maven/plugins/licenseverifier/model/OverallStatus.java:20-22 | The forbidden flag takes the value given. The other three flags are untouched. |
| `Model.OverallStatus.SetHasWarningLicense` | src/main/java/se/ayoy/maven/plugins/licenseverifier/model/OverallStatus.java:28-30 | The warning flag takes the value given. The other three flags are untouched. |
| `Model.OverallStatus.SetHasUnknownLicense` | src/main/java/se/ayoy/maven/plugins/licenseverifier/model/OverallStatus.java:36-38 | The unknown flag takes the value given. The other three flags are untouched. |
| `Model.OverallStatus.GetHasNoLicense` | src/main/java/se/ayoy/maven/plugins/licenseverifier/model/OverallStatus.java:16-18 | Reads back the missing flag, as its setter last stored it. |
| `Model.OverallStatus.GetHasForbiddenLicense` | src/main/java/se/ayoy/maven/plugins/licenseverifier/model/OverallStatus.java:24-26 | Reads back the forbidden flag, as its setter last stored it. |
| `Model.OverallStatus.GetHasWarningLicense` | src/main/java/se/ayoy/maven/plugins/licenseverifier/model/OverallStatus.java:32-34 | Reads back the warning flag, as its setter last stored it. |
| `Model.OverallStatus.GetHasUnknownLicense` | src/main/java/se/ayoy/maven/plugins/licenseverifier/model/OverallStatus.java:40-42 | Reads back the unknown flag, as its setter last stored it. |
| `Util.AyoyArtifactList.constructor` | src/main/java/se/ayoy/maven/plugins/licenseverifier/util/AyoyArtifactList.java:11 | The implicit constructor gives an empty list, which has no duplicates. |
| `Util.AyoyArtifactList.ContainsArtifact` | src/main/java/se/ayoy/maven/plugins/licenseverifier/util/AyoyArtifactList.java:19-27 | True iff some element refers to an artifact equal to the argument. |
| `Util.AyoyArtifactList.Add` | src/main/java/se/ayoy/maven/plugins/licenseverifier/util/AyoyArtifactList.java:34-41 | Returns true iff no element has the element's artifact. Then the element is appended at the end; otherwise the list is unchanged. A list without duplicates stays without duplicates. |
| `Util.AddTwiceKeepsOne` | src/test/java/se/ayoy/maven/plugins/licenseverifier/util/AyoyArtifactListTest.java:28-60 | After one add the list contains the artifact and has size 1. A second add of the same element leaves the size at 1. |
| `Util.LogNullableString` | src/main/java/se/ayoy/maven/plugins/licenseverifier/util/LogHelper.java:51-57 | "(null)" for `null`. Otherwise the string between two double quotes, two characters longer than it. |
| `Util.LogNullableStringInjective` | src/main/java/se/ayoy/maven/plugins/licenseverifier/util/LogHelper.java:51-57 | `logNullableString` ("(null)" or the quoted string) never gives two different strings, or a string and `null`, the same text. |
| `Util.LogLicense` | src/main/java/se/ayoy/maven/plugins/licenseverifier/util/LogHelper.java:17-44 | "(null)" for a `null` license. Otherwise "Name: ", the name, ", " and the url, each written as `logNullableString` writes it. |
| `Resolver.Level` | src/main/java/se/ayoy/maven/plugins/licenseverifier/resolver/TreeNode.java:56-62 | The level is 0 iff the node has no parent. It is never more than the node's position, so the parent walk ends. |
| `Resolver.Tree.constructor` | src/main/java/se/ayoy/maven/plugins/licenseverifier/resolver/TreeNode.java:31-37 | The new node is a root and a leaf, it holds the data, and its search index is exactly itself. |
| `Resolver.Tree.IsRoot` | src/main/java/se/ayoy/maven/plugins/licenseverifier/resolver/TreeNode.java:17-19 | True iff the node has no parent. In a valid tree that is exactly the node of level 0, which is the first node. |
| `Resolver.Tree.IsLeaf` | src/main/java/se/ayoy/maven/plugins/licenseverifier/resolver/TreeNode.java:21-23 | True iff no node is reachable below it. |
| `Resolver.Tree.AddChild` | src/main/java/se/ayoy/maven/plugins/licenseverifier/resolver/TreeNode.java:44-50 | The new node holds the data, its parent is `p`, and it is the last child of `p`. It is added to the search index of `p` and of every ancestor, and to no other. Its level is the parent's plus 1. No other data, parent, children list or level changes. |
| `Resolver.Tree.RegisterChildForSearch` | src/main/java/se/ayoy/maven/plugins/licenseverifier/resolver/TreeNode.java:64-69 | The node is appended to the search index of `m` and of every ancestor of `m`. Nothing else changes. |
| `Resolver.Tree.RemoveChild` | src/main/java/se/ayoy/maven/plugins/licenseverifier/resolver/TreeNode.java:97-99 | Only the first occurrence of the child is dropped from the children list of `p`. The removed node's parent pointer and all search indices stay as they were. |
| `Resolver.RemoveFirstDistinct` | src/main/java/se/ayoy/maven/plugins/licenseverifier/resolver/TreeNode.java:98 | `List.remove` on a list without repetition keeps exactly the other entries, still without repetition. |
| `Resolver.GrowKeepsShape` | src/main/java/se/ayoy/maven/plugins/licenseverifier/resolver/TreeNode.java:44-50 | Attaching a new last child keeps the tree well formed. It keeps every old node's level and ancestry, and the new node is not an ancestor of its parent. |
| `Resolver.BelowDistinct` | src/main/java/se/ayoy/maven/plugins/licenseverifier/resolver/TreeNode.java:76-79 | Walking children in iteration order, recursively, meets every node at most once. |
| `Resolver.BelowDescends` | src/main/java/se/ayoy/maven/plugins/licenseverifier/resolver/TreeNode.java:76-79 | Every node met below `n` lies in the subtree of `n`. |
| `Visitor.LicenseDependencyNodeVisitor.constructor` | src/main/java/se/ayoy/maven/plugins/licenseverifier/resolver/LicenseDependencyNodeVisitor.java:19-22 | The cursor starts on the tree it was given. |
| `Visitor.LicenseDependencyNodeVisitor.Visit` | src/main/java/se/ayoy/maven/plugins/licenseverifier/resolver/LicenseDependencyNodeVisitor.java:24-30 | Exactly one node is added. It holds a new artifact for the visited node, with no licenses and no classifications. It is the last child of the old cursor node, and the cursor moves onto it. Returns true. |
| `Visitor.LicenseDependencyNodeVisitor.EndVisit` | src/main/java/se/ayoy/maven/plugins/licenseverifier/resolver/LicenseDependencyNodeVisitor.java:32-40 | The cursor moves to its parent, or back to the tree's own node when it has none. The tree is not changed. Returns true. |
| `Visitor.LicenseDependencyNodeVisitor.Accept` | src/main/java/se/ayoy/maven/plugins/licenseverifier/resolver/LicenseDependencyNodeVisitor.java:24-40 | Maven's walk of a graph (`visit`, the children in order, `endVisit`) has these effects: (1) the cursor ends where it started; (2) one new node per graph node is added; (3) the new last child of the cursor node records exactly the walked graph; (4) nothing that existed changes except that children list. |
| `Visitor.LicenseDependencyNodeVisitor.AcceptChildren` | src/main/java/se/ayoy/maven/plugins/licenseverifier/resolver/LicenseDependencyNodeVisitor.java:24-40 | Walking the children of a graph below a fresh cursor node records them, in order, as that node's subtree. The cursor is back on that node afterwards. |
| `Prune.RemoveFilteredArtifacts` | src/main/java/se/ayoy/maven/plugins/licenseverifier/LicenseVerifierMojo.java:179-195 | Only children lists change. Every node the pass reaches loses exactly its children whose artifact is not to be included, and the survivors keep their order. Every other node keeps its children list. |
| `Prune.RemoveFilteredChild` | src/main/java/se/ayoy/maven/plugins/licenseverifier/LicenseVerifierMojo.java:183-194 | One round, with the `i--` after a removal: (1) the examined child is removed or descended into; (2) the loop's frontier moves to the next original child, so each original child is examined once. |
| `Prune.ProgressDrop` | src/main/java/se/ayoy/maven/plugins/licenseverifier/LicenseVerifierMojo.java:188-189 | Removing the child at the frontier and stepping `i` back leaves the next unexamined original child at position `i`. |
| `Prune.ProgressKeep` | src/main/java/se/ayoy/maven/plugins/licenseverifier/LicenseVerifierMojo.java:190-193 | Keeping the child at the frontier and pruning below it moves the frontier one position on. |
| `Prune.FilterMembers` | src/main/java/se/ayoy/maven/plugins/licenseverifier/LicenseVerifierMojo.java:183-190 | The kept children are exactly the listed ones to be included. The filter never adds a child and never grows the list. |
| `Prune.FilterConcat` | src/main/java/se/ayoy/maven/plugins/licenseverifier/LicenseVerifierMojo.java:183-190 | Survivors keep their relative order: the filter of a concatenation is the concatenation of the filters. |
| `Prune.SurvivorsIncluded` | src/main/java/se/ayoy/maven/plugins/licenseverifier/LicenseVerifierMojo.java:183-194 | After the pass, every child under a reached node was a child before and holds an artifact to be included. |
| `Prune.SurvivorsExactly` | src/main/java/se/ayoy/maven/plugins/licenseverifier/LicenseVerifierMojo.java:183-194 | After the pass, every original child of a reached node that is to be included is still there. |
| `Prune.DroppedNotVisited` | src/main/java/se/ayoy/maven/plugins/licenseverifier/LicenseVerifierMojo.java:185-193 | Nothing in the subtree of a removed child is reached, and every node there keeps its children list. |
| `Prune.OutsideUntouched` | src/main/java/se/ayoy/maven/plugins/licenseverifier/LicenseVerifierMojo.java:179-195 | Nodes outside the subtree of the starting node keep their children lists. |
| `Prune.VisitedDescends` | src/main/java/se/ayoy/maven/plugins/licenseverifier/LicenseVerifierMojo.java:179-195 | Every node the pass reaches lies in the subtree of the starting node. |
| `CheckLicenses.CheckForLicenses` | src/main/java/se/ayoy/maven/plugins/licenseverifier/LicenseVerifierMojo.java:163-177 | After the pass, the license lists of all artifacts equal `Pass` applied to the lists before it, over the nodes below the start in pre-order. Only license lists change. |
| `CheckLicenses.CheckChild` | src/main/java/se/ayoy/maven/plugins/licenseverifier/LicenseVerifierMojo.java:164-176 | One round of the loop: the child is checked, then every node below it, in pre-order. |
| `CheckLicenses.CheckNode` | src/main/java/se/ayoy/maven/plugins/licenseverifier/LicenseVerifierMojo.java:165-173 | The licenses `getLicenses` reports for the node's artifact are appended to it; `null` adds nothing. No other artifact changes. |
| `CheckLicenses.PassNode` | src/main/java/se/ayoy/maven/plugins/licenseverifier/LicenseVerifierMojo.java:163-177 | A node met once in the pass gets the licenses found for its artifact appended exactly once. |
| `CheckLicenses.PassOutside` | src/main/java/se/ayoy/maven/plugins/licenseverifier/LicenseVerifierMojo.java:163-177 | A node the pass does not meet keeps its licenses. |
| `CheckLicenses.EveryNodeBelowOnce` | src/main/java/se/ayoy/maven/plugins/licenseverifier/LicenseVerifierMojo.java:163-177 | Each node below the start gets the licenses found for its artifact appended exactly once. Every other node keeps its licenses. |
| `Classify.ClassifyOne` | src/main/java/se/ayoy/maven/plugins/licenseverifier/LicenseVerifierMojo.java:217-226 | Each license gets exactly one classification. When the table has a match, the first matching entry is the classification and the table is unchanged. Otherwise a new UNKNOWN entry with the license's name (and matching the license when it has a name or a url) is the classification and is appended to the table. |
| `Classify.Classify` | src/main/java/se/ayoy/maven/plugins/licenseverifier/LicenseVerifierMojo.java:215-231 | One classification per declared license. The table only grows, at its end. |
| `Classify.ClassifyAt` | src/main/java/se/ayoy/maven/plugins/licenseverifier/LicenseVerifierMojo.java:215-231 | The `i`-th classification is that of the `i`-th license, against the table the licenses before it left. |
| `Classify.ClassifyMatched` | src/main/java/se/ayoy/maven/plugins/licenseverifier/LicenseVerifierMojo.java:217-226 | Licenses the table already lists never grow it. |
| `Classify.ClassifyOneMemo` | src/main/java/se/ayoy/maven/plugins/licenseverifier/LicenseVerifierMojo.java:217-226 | Memoization: once a license with a name or url is classified, a later lookup of the same license finds the same entry and adds nothing. This holds for the table as it then is, or as it has grown since. |
| `Classify.NullLicenseNotMemoized` | src/main/java/se/ayoy/maven/plugins/licenseverifier/LicenseVerifierMojo.java:217-226 | A license with neither name nor url matches no entry, so every lookup of it appends a new UNKNOWN entry. |
| `Classify.RunNode` | src/main/java/se/ayoy/maven/plugins/licenseverifier/LicenseVerifierMojo.java:207-233 | Each node met once by the pass gets its licenses' classifications appended after those it had. There is one per license, in license order, against the table the earlier nodes left. |
| `Classify.RunOutside` | src/main/java/se/ayoy/maven/plugins/licenseverifier/LicenseVerifierMojo.java:203-235 | A node the pass does not meet keeps its classifications. |
| `Classify.RunTableGrows` | src/main/java/se/ayoy/maven/plugins/licenseverifier/LicenseVerifierMojo.java:225 | Over the whole pass, the table only grows at its end. |
| `Classify.ClassifyLicense` | src/main/java/se/ayoy/maven/plugins/licenseverifier/LicenseVerifierMojo.java:217-229 | One round of the license loop: the artifact's classifications and the table become those `ClassifyOne` gives. |
| `Classify.ClassifyLicenses` | src/main/java/se/ayoy/maven/plugins/licenseverifier/LicenseVerifierMojo.java:215-231 | The license loop: the artifact gets the classifications of all its licenses, in order, and the table becomes the one they leave. |
| `Classify.ClassifyNode` | src/main/java/se/ayoy/maven/plugins/licenseverifier/LicenseVerifierMojo.java:209-231 | Classifying one node's artifact changes the pass state by exactly that node's step. The declared licenses are unchanged. |
| `Classify.ClassifyChild` | src/main/java/se/ayoy/maven/plugins/licenseverifier/LicenseVerifierMojo.java:207-233 | One round of the children loop: the child is classified, then every node below it, in pre-order. |
| `Classify.DetermineArtifactStatus` | src/main/java/se/ayoy/maven/plugins/licenseverifier/LicenseVerifierMojo.java:203-235 | After the pass, the classifications and the table equal `Run` over the nodes below the start in pre-order, applied to the state before. Declared licenses are unchanged. |
| `Overall.ArtifactFlags` | src/main/java/se/ayoy/maven/plugins/licenseverifier/LicenseVerifierMojo.java:261-296 | The per-artifact loop computes `FlagsOf`: MISSING iff there is no classification, and one flag for each violating status present. |
| `Overall.NoInfosOnlyMissing` | src/main/java/se/ayoy/maven/plugins/licenseverifier/LicenseVerifierMojo.java:261-301 | An artifact without classifications raises MISSING and nothing else. |
| `Overall.ValidAddsNothing` | src/main/java/se/ayoy/maven/plugins/licenseverifier/LicenseVerifierMojo.java:269-274 | A VALID classification added to a non-empty list changes no flag. |
| `Overall.OnlyValidRaisesNothing` | src/main/java/se/ayoy/maven/plugins/licenseverifier/LicenseVerifierMojo.java:269-295 | A single classification raises no violation flag iff its status is VALID. |
| `Overall.Raise` | src/main/java/se/ayoy/maven/plugins/licenseverifier/LicenseVerifierMojo.java:298-313 | The setters raise exactly the artifact's flags and lower none. |
| `Overall.FoldRaises` | src/main/java/se/ayoy/maven/plugins/licenseverifier/LicenseVerifierMojo.java:245-313 | Each flag of the fold is up iff the contribution of some folded node has it up. |
| `Overall.FoldSameNodes` | src/main/java/se/ayoy/maven/plugins/licenseverifier/LicenseVerifierMojo.java:245-249 | The fold depends only on which nodes are folded, not on their order. |
| `Overall.PassRaises` | src/main/java/se/ayoy/maven/plugins/licenseverifier/LicenseVerifierMojo.java:245-259 | The post-order pass gives the same flags as one over all nodes below the start. Every node counts, whatever its parent's verdict. |
| `Overall.CalculateOverallStatus` | src/main/java/se/ayoy/maven/plugins/licenseverifier/LicenseVerifierMojo.java:237-315 | Only `status` changes. The new flags are the old flags or-ed with the contributions of all nodes below the start in post-order, so a flag once up stays up. |
| `Overall.OverallChild` | src/main/java/se/ayoy/maven/plugins/licenseverifier/LicenseVerifierMojo.java:245-314 | One round of the children loop: the child's subtree first, then the child's own contribution. |
| `Overall.VerdictPrecedence` | src/main/java/se/ayoy/maven/plugins/licenseverifier/LicenseVerifierMojo.java:138-155 | The run passes iff no enabled flag is up. Otherwise it fails with the message of the first enabled flag that is up, in the order missing, warning, unknown, forbidden. |
| `Overall.VerdictMonotone` | src/main/java/se/ayoy/maven/plugins/licenseverifier/LicenseVerifierMojo.java:138-155 | With every switch off, the run passes. Raising more flags never turns a failure into a pass. |
| `Overall.Verdict` | src/main/java/se/ayoy/maven/plugins/licenseverifier/LicenseVerifierMojo.java:138-155 | A failure is a MojoExecutionException carrying one of the four messages, and its flag is enabled and up. The run passes only when no enabled flag is up. |
| `Overall.ForbiddenAndValidFails` | src/test/java/se/ayoy/maven/plugins/licenseverifier/LicenseVerifierMojoTest.java:203-227 | With the default switches, a non-valid artifact classified FORBIDDEN and VALID fails with the forbidden message. |
| `Chain.GetChainString` | src/main/java/se/ayoy/maven/plugins/licenseverifier/LicenseVerifierMojo.java:322-345 | The result is `ChainString`: "" for a node without an artifact. Otherwise "pom" and one " -> groupId:artifactId" per artifact from the top down (no version). A node with an artifact but no parent ends in the NullPointerException, without a message, that the parent walk throws. |
| `Chain.RootChain` | src/main/java/se/ayoy/maven/plugins/licenseverifier/LicenseVerifierMojo.java:323-325 | The project's own node has the empty chain. |
| `Chain.ChainReachesRoot` | src/main/java/se/ayoy/maven/plugins/licenseverifier/LicenseVerifierMojo.java:331-340 | In a tree where only the root lacks an artifact, the walk from any other node reaches the root. It lists one artifact per level, ending with the node's own. |
| `Chain.ChainExample` | src/main/java/se/ayoy/maven/plugins/licenseverifier/LicenseVerifierMojo.java:322-345 | For a dependency `c:d` of a dependency `a:b`, the chain is "pom -> a:b -> c:d". |
| `Visualize.StripTrailing` | src/main/java/se/ayoy/maven/plugins/licenseverifier/visualize/TreeNodeVisualizer.java:40 | `replaceAll("\\s+$", "")`, where `$` also matches before a final U+0085, U+2028 or U+2029. A text ending in one of those keeps that last character and loses the white space just before it. Any other text loses its trailing white space and nothing else. Either way the result does not end in white space. |
| `Visualize.DropSpaces` | src/main/java/se/ayoy/maven/plugins/licenseverifier/visualize/TreeNodeVisualizer.java:40 | The result is the longest prefix not ending in white space; only white space is cut. |
| `Visualize.StripKeepsText` | src/main/java/se/ayoy/maven/plugins/licenseverifier/visualize/TreeNodeVisualizer.java:40 | The text is kept whole iff it does not end in white space and does not end in white space followed by one of the three line terminators. |
| `Visualize.StripIdempotent` | src/main/java/se/ayoy/maven/plugins/licenseverifier/visualize/TreeNodeVisualizer.java:40 | On a text without U+0085, U+2028 or U+2029, stripping twice is the same as stripping once. |
| `Visualize.StripTwiceDiffers` | src/main/java/se/ayoy/maven/plugins/licenseverifier/visualize/TreeNodeVisualizer.java:40 | With those terminators the strip is not idempotent: "a \u2028 " strips to "a \u2028", which strips to "a\u2028". |
| `Visualize.StripSpaceTail` | src/main/java/se/ayoy/maven/plugins/licenseverifier/visualize/TreeNodeVisualizer.java:40 | Stripping a non-empty white-space tail from a text that does not end in white space gives the text back. An empty tail leaves the text to the strip. |
| `Visualize.Spaces` | src/main/java/se/ayoy/maven/plugins/licenseverifier/visualize/TreeNodeVisualizer.java:43-47 | Exactly two spaces per level. |
| `Visualize.Indent` | src/main/java/se/ayoy/maven/plugins/licenseverifier/visualize/TreeNodeVisualizer.java:43-47 | The loop appends two spaces per level to the builder's text. |
| `Visualize.FormatAyoyArtifact` | src/main/java/se/ayoy/maven/plugins/licenseverifier/visualize/TreeNodeVisualizer.java:49-66 | The text is `groupId:artifactId:version`, then for each classification in order its status and its name, with no separator. |
| `Visualize.Visualize` | src/main/java/se/ayoy/maven/plugins/licenseverifier/visualize/TreeNodeVisualizer.java:23-41 | The result is `Render`: the node's own line when the depth is positive, then each child rendered one level deeper and followed by the separator, with the trailing white space removed as `replaceAll("\\s+$", "")` removes it. It does not end in white space. |
| `Visualize.VisualizeChild` | src/main/java/se/ayoy/maven/plugins/licenseverifier/visualize/TreeNodeVisualizer.java:34-37 | One round of the children loop: the next child rendered one level deeper, then the separator. |
| `Visualize.ChildlessRootIsEmpty` | src/main/java/se/ayoy/maven/plugins/licenseverifier/visualize/TreeNodeVisualizer.java:23-41 | A root without children renders as "". |
| `Visualize.RootRendersChildren` | src/main/java/se/ayoy/maven/plugins/licenseverifier/visualize/TreeNodeVisualizer.java:26-37 | At depth 0 no line is emitted for the node itself, only the renderings of its children. |
| `Visualize.LeafLine` | src/main/java/se/ayoy/maven/plugins/licenseverifier/visualize/TreeNodeVisualizer.java:26-40 | A childless node at a positive depth renders as 2×level spaces followed by its formatted artifact and the separator, then stripped. With a non-empty white-space separator that is exactly the spaces and the formatted artifact; with an empty one it is their strip. |
| `Collect.MatchesAnyScope` | src/main/java/se/ayoy/maven/plugins/licenseverifier/LicenseAbstractMojo.java:162-171 | A `null` array matches nothing. Otherwise true iff some configured scope equals the artifact's scope exactly. |
| `Collect.AnyScope` | src/main/java/se/ayoy/maven/plugins/licenseverifier/LicenseAbstractMojo.java:164-168 | The search loop is true iff some scope of the array equals the artifact's scope. |
| `Collect.ResolveTransitiveArtifact` | src/main/java/se/ayoy/maven/plugins/licenseverifier/LicenseAbstractMojo.java:278-294 | What the repository resolves, minus the provider and the excluded scopes: never longer, and never holding the provider. Its exact members are stated by `Collect.TransitiveMembers`. |
| `Collect.RemoveMembers` | src/main/java/se/ayoy/maven/plugins/licenseverifier/LicenseAbstractMojo.java:287-288 | After `remove(provider)`, an artifact remains iff it was there and is not the provider. |
| `Collect.RemoveExcludedMembers` | src/main/java/se/ayoy/maven/plugins/licenseverifier/LicenseAbstractMojo.java:290-291 | After `removeIf`, an artifact remains iff it was there and its scope is not excluded. |
| `Collect.TransitiveMembers` | src/main/java/se/ayoy/maven/plugins/licenseverifier/LicenseAbstractMojo.java:278-294 | The transitive set holds exactly what is resolved for the provider, minus the provider itself and the artifacts in excluded scopes. |
| `Collect.Fetched` | src/main/java/se/ayoy/maven/plugins/licenseverifier/LicenseAbstractMojo.java:136-160 | Conversion succeeds iff the build gives a project with a license list, and then gives exactly that list. |
| `Collect.ToAyoyArtifact` | src/main/java/se/ayoy/maven/plugins/licenseverifier/LicenseAbstractMojo.java:136-160 | On success, a fresh artifact whose licenses are exactly the fetched list. On a failed build, a null project or a null list, the matching exception, and never a partial artifact. |
| `Collect.ParseArtifacts` | src/main/java/se/ayoy/maven/plugins/licenseverifier/LicenseAbstractMojo.java:86-134 | A missing building request throws its NullPointerException. Otherwise the method fails iff some collected artifact fails to convert, with the first such exception. On success, one new artifact per collected artifact, in order, with its fetched licenses. |
| `Collect.CollectAll` | src/main/java/se/ayoy/maven/plugins/licenseverifier/LicenseAbstractMojo.java:97-131 | The loop over the direct dependencies converts `Collected(deps)` in order, up to the first exception. |
| `Collect.CollectDependency` | src/main/java/se/ayoy/maven/plugins/licenseverifier/LicenseAbstractMojo.java:98-119 | One round: an excluded dependency adds nothing. Otherwise the dependency, then its transitive artifacts, are converted and appended, up to the first exception. |
| `Collect.ConvertAll` | src/main/java/se/ayoy/maven/plugins/licenseverifier/LicenseAbstractMojo.java:115-119 | The transitive loop converts and appends each artifact in turn, up to the first exception. |
| `Collect.Convert` | src/main/java/se/ayoy/maven/plugins/licenseverifier/LicenseAbstractMojo.java:110 | One conversion is appended, or its exception is returned. |
| `Collect.FailureStays` | src/main/java/se/ayoy/maven/plugins/licenseverifier/LicenseAbstractMojo.java:97-131 | An exception while collecting the first `i` dependencies is the exception of the whole collection. |
| `Collect.CollectedAppend` | src/main/java/se/ayoy/maven/plugins/licenseverifier/LicenseAbstractMojo.java:97-131 | Collecting two lists of direct dependencies is collecting each in turn. |
| `Collect.NothingExcluded` | src/main/java/se/ayoy/maven/plugins/licenseverifier/LicenseAbstractMojo.java:98-108 | No collected artifact lies in an excluded scope. |
| `Collect.CollectedMembers` | src/main/java/se/ayoy/maven/plugins/licenseverifier/LicenseAbstractMojo.java:97-131 | An artifact is collected iff it is a direct dependency outside the excluded scopes, or a transitive artifact of one. |
| `Collect.Block` | src/main/java/se/ayoy/maven/plugins/licenseverifier/LicenseAbstractMojo.java:110-119 | Each kept direct dependency stands where the collection of the dependencies before it ends, and is immediately followed by its transitive artifacts. |
| `Collect.TransitiveAt` | src/main/java/se/ayoy/maven/plugins/licenseverifier/LicenseAbstractMojo.java:115-116 | The `a`-th transitive artifact of a kept dependency is collected right after that dependency, at offset `a`. |
| `Collect.PrefixGrows` | src/main/java/se/ayoy/maven/plugins/licenseverifier/LicenseAbstractMojo.java:97-131 | The collection of the dependencies before `j` holds the whole block of an earlier kept dependency. |
| `Collect.SharedTransitiveTwice` | src/main/java/se/ayoy/maven/plugins/licenseverifier/LicenseAbstractMojo.java:110-116 | The result is a list: an artifact resolved for two kept direct dependencies is collected at two different positions. |
| `Collect.ExcludedNeverResolved` | src/main/java/se/ayoy/maven/plugins/licenseverifier/LicenseAbstractMojo.java:98-108 | Artifacts are never resolved for an excluded dependency: two repositories that agree on the kept dependencies give the same collection. |
| `Collect.FetchAllSuccess` | src/main/java/se/ayoy/maven/plugins/licenseverifier/LicenseAbstractMojo.java:110-116 | Converting all artifacts succeeds iff each one converts, and then gives each artifact's licenses. |
| `Collect.FetchAllFirstFailure` | src/main/java/se/ayoy/maven/plugins/licenseverifier/LicenseAbstractMojo.java:110-116 | A failed conversion throws the exception of the first artifact that does not convert. |
| `MissingLicenses.ExcludedMissingLicense.constructor` | src/main/java/se/ayoy/maven/plugins/licenseverifier/MissingLicenseInfo/ExcludedMissingLicense.java:25-41 | The loop over the children gives each field the text of the last child with that name. |
| `MissingLicenses.ExcludedMissingLicense.Create` | src/main/java/se/ayoy/maven/plugins/licenseverifier/MissingLicenseInfo/ExcludedMissingLicense.java:18-21 | A `null` node throws NullPointerException("Node cannot be null"). Any other node gives an entry with the extracted fields. |
| `MissingLicenses.LastWins` | src/main/java/se/ayoy/maven/plugins/licenseverifier/MissingLicenseInfo/ExcludedMissingLicense.java:25-40 | When a name repeats, the last child with it wins. |
| `MissingLicenses.NoChildNoField` | src/main/java/se/ayoy/maven/plugins/licenseverifier/MissingLicenseInfo/ExcludedMissingLicense.java:10-12 | A field stays `null` iff no child has its name. |
| `MissingLicenses.FieldFromLastChild` | src/main/java/se/ayoy/maven/plugins/licenseverifier/MissingLicenseInfo/ExcludedMissingLicense.java:28-37 | A set field is the text of a child with that name, and no later child has that name. |
| `MissingLicenses.OtherChildIgnored` | src/main/java/se/ayoy/maven/plugins/licenseverifier/MissingLicenseInfo/ExcludedMissingLicense.java:38-39 | A child with any other name changes no field, wherever it stands. |
| `MissingLicenses.AnyExcludes` | src/main/java/se/ayoy/maven/plugins/licenseverifier/MissingLicenseInfo/ExcludedMissingLicenseFile.java:88-96 | The search loop is true iff some entry equals the artifact on groupId, artifactId and version together. |
| `MissingLicenses.ExcludedMissingLicenseFile.Empty` | src/main/java/se/ayoy/maven/plugins/licenseverifier/MissingLicenseInfo/ExcludedMissingLicenseFile.java:37-39 | With no path there are no entries and no warnings. |
| `MissingLicenses.ExcludedMissingLicenseFile.Open` | src/main/java/se/ayoy/maven/plugins/licenseverifier/MissingLicenseInfo/ExcludedMissingLicenseFile.java:33-80 | The cases are: (1) a `null` path gives an empty list; (2) a path naming no file throws FileNotFoundException(path); (3) a document the parser rejects throws MojoExecutionException with the parser's message; (4) otherwise the entries and warnings are those of `parseInfos`. |
| `MissingLicenses.ExcludedMissingLicenseFile.ParseInfos` | src/main/java/se/ayoy/maven/plugins/licenseverifier/MissingLicenseInfo/ExcludedMissingLicenseFile.java:99-123 | The entries of the document's `dependency` elements with all three fields are appended in document order. One warning is recorded for each other `dependency` element. Every entry stays complete. |
| `MissingLicenses.ExcludedMissingLicenseFile.ParseNode` | src/main/java/se/ayoy/maven/plugins/licenseverifier/MissingLicenseInfo/ExcludedMissingLicenseFile.java:104-121 | One round of the loop: a non-`dependency` element is skipped; otherwise its entry is kept or warned about. |
| `MissingLicenses.ExcludedMissingLicenseFile.IsExcluded` | src/main/java/se/ayoy/maven/plugins/licenseverifier/MissingLicenseInfo/ExcludedMissingLicenseFile.java:87-97 | True iff some entry equals the artifact on groupId, artifactId and version together. The list is only read. |
| `MissingLicenses.WarningOrder` | src/main/java/se/ayoy/maven/plugins/licenseverifier/MissingLicenseInfo/ExcludedMissingLicenseFile.java:113-121 | The warning names the first missing field, in the order groupId, artifactId, version. There is no warning iff the entry is complete. |
| `MissingLicenses.KeptAppend` | src/main/java/se/ayoy/maven/plugins/licenseverifier/MissingLicenseInfo/ExcludedMissingLicenseFile.java:103-122 | Kept entries stay in document order. |
| `MissingLicenses.KeptMembers` | src/main/java/se/ayoy/maven/plugins/licenseverifier/MissingLicenseInfo/ExcludedMissingLicenseFile.java:99-123 | An entry is kept iff some `dependency` element yields it with all three fields. |
| `MissingLicenses.KeptOrWarned` | src/main/java/se/ayoy/maven/plugins/licenseverifier/MissingLicenseInfo/ExcludedMissingLicenseFile.java:111-121 | Each `dependency` element is either kept or warned about, never both: the kept entries and the warnings together number the `dependency` elements. |

## Left out

- Logging is not modelled. `getLog()`, `logInfoIfVerbose` and `logMultiLine` have no effect on results. The warnings of `parseInfos` are kept as a `warnings` field so that their order can be stated.
- I/O and XML parsing are not modelled: file existence is a parameter `fileExists`, and a parsed document is a sequence of `dependency`-level elements with (name, text) children. The XXE settings of the parser are left out.
- Not modelled because they probe the file system or the Maven session, or are pure glue:
  - `getPathForRelativeFile`, `getLicenseInfoFile`, `getExcludedMissingLicensesFile` and `checkInjects`;
  - the whole of `LicenseVerifier`, `TreeMojo` and `LicenceFile`;
  - the order of calls in `execute` outside its verdict.
- Members the source calls but does not show are parameters, not definitions:
  - `shouldArtifactBeIncluded` (`shouldInclude`);
  - `isLicenseValid(requireAllValid)` (`isLicenseValid`);
  - `getLicenses` (`get`);
  - `projectBuilder.build` (`build`);
  - `repositorySystem.resolve` (`resolve`, its result set given as a sequence in iteration order);
  - `project.getDependencyArtifacts()` (`deps`, in iteration order);
  - Maven's `Artifact.toString` (`show`);
  - the platform line separator (`sep`).
- `Classify.UnknownInfo`: the `(name, url, status)` constructor of `LicenseInfo` is not shown. The model assumes it builds an entry that accepts exactly that name and that url.
- `Visitor.LicenseDependencyNodeVisitor.Visit`: the two-argument constructor of `AyoyArtifact` is not shown, and `null` licenses are read as none.
- `Visualize.Visualize`: a positive depth on a node without an artifact throws a NullPointerException in the source. That case is excluded by a precondition, as `visualize` is only ever called with depth 0 on the project's own node.
- The tree passes require that different nodes hold different `AyoyArtifact` objects. The visitor creates a new object per node, so the source never shares one; the model does not track that sharing otherwise.
- `Util.AyoyArtifactList.ContainsArtifact`: Maven artifacts are compared as values of the `Artifact` datatype, on groupId, artifactId, version and scope. Maven's `DefaultArtifact.equals` is not part of this model; it compares groupId, artifactId, version, type and classifier, but not scope. So two artifacts that differ only in scope count as different here.
- `Util.AyoyArtifactList.Add`: for the same reason, an artifact already in the list under another scope is added again here, where Maven's comparison would refuse it.
- `Collect.RemoveMembers`: for the same reason, `remove(provider)` drops only a resolved artifact with the provider's own scope. Under Maven's comparison a copy in another scope would be dropped too.
- `Collect.TransitiveMembers` and `Collect.CollectedMembers`: they inherit this comparison, so a provider resolved back under another scope stays in the transitive set here.
- The elements of the `excludedScopes` array are assumed non-null; a `null` element would make `scope.equals` throw.
- `Model.AyoyArtifact.Describe`: its contract spells out the text `toString` builds. The meaning of the loop is stated by `Model.QuotedNamesFront` instead.
- `Model.AyoyArtifact.GetLicenses`: the defensive copy needs no contract, since a Dafny sequence is a value and the caller cannot change the artifact through it.
- `Overall.Contribution`: its contract spells out the `isLicenseValid` skip. The properties of the pass are stated by `Overall.PassRaises`, `Overall.FoldRaises` and `Overall.CalculateOverallStatus`.
- `TreeNode.iterator`: it is modelled by the `children` sequence itself. Its insertion order is stated by `Resolver.Tree.AddChild`.
- Unreachable branches are not modelled:
  - the `default` branch of the status switch, because the status datatype has exactly four values;
  - the non-`dependency` check of `parseInfos` is modelled, though `getElementsByTagName` never yields such an element.
- The test `bothInvalidAndValidLicense2`, which expects two FORBIDDEN licenses to pass with `requireAllValid` false, is not modelled. Its outcome depends on `isLicenseValid`, which is not shown.
- Loop bodies that call back into the recursion are written as separate methods, one round each (`CheckChild`, `ClassifyChild`, `OverallChild`, `RemoveFilteredChild`, `VisualizeChild`, `CollectDependency`, `ParseNode`), with the loop kept in the calling method.
