# Maven descriptor resolution, modelled in Dafny

This project models the core of a Maven multi-module analyser. The analyser
reads a repository's root `pom.xml`. It builds the **aggregation tree** by
following `<modules>` recursively. It flattens that tree into a pre-order
**node list**. It then links every descriptor to the descriptor it names as
`<parent>`, which gives the **inheritance tree**. Over that list it answers
several queries:

- raw dependencies;
- dependencies with `${...}` versions resolved through the inheritance chain;
- dynamic-version dependencies (`RELEASE`, `LATEST`, `*SNAPSHOT`);
- distinct repository URLs;
- node paths;
- a path-to-dependencies map.

Structure of the model:

- Descriptors live in an arena (`seq<Node>`). The parent link and the two
  child lists are arena indices, so object identity becomes index identity.
- The XML document is an abstract element tree (`Xml.XmlNode`). The file
  system is a `Workspace` value: the set of existing paths, the readable
  documents, and the functions that form module and root paths.
- Every Java `HashMap.put` sequence is `PutAll`, where the last write wins.
  `ArrayList.contains`-guarded appends are `AddUnique`, and
  `stream().distinct()` is `Dedup`, which keeps first occurrences.

Modules:

| file | module | Java counterpart |
|---|---|---|
| collections.dfy | `Collections` | list/map folds, `Option`, `Result` |
| strings.dfy | `Strings` | `startsWith`, `endsWith`, `contains`, `trim`, `replace` |
| dependency.dfy | `Dependencies` | `Dependency.java` |
| pom.dfy | `Poms` | `POM.java`: links, properties, `hasParent`, `equals` |
| interpolation.dfy | `Interpolation` | `POM.interpolateString` |
| resolution.dfy | `Resolution` | `POM.findPropertyValue`, `getDependencies` |
| xml.dfy | `Xml` | the DOM/XPath queries the parser issues |
| extraction.dfy | `Extraction` | `POMParser.java` |
| tree.dfy | `Aggregation` | `POMTree.createAggregatorTree`, `setPomList` |
| inheritance.dfy | `Inheritance` | `POMTree.createInheritanceTree` |
| pomtree.dfy | `PomTrees` | `POMTree.java`: build and tree-wide queries |
| scenario.dfy | `Scenario` | a three-descriptor repository traced end to end |

### Where the documented behaviour and the code disagree (the model follows the code)

- `hasParent()` is documented as "all three stored parent coordinates are
  non-empty". The code instead tests the *linked parent node's* own groupId,
  artifactId and version (`POM.java:166-175`). `Poms.HasParent` models the
  code, and `Poms.HasParentIgnoresStoredCoordinates` shows the stored strings
  play no part.
- The property walk stops at the first value that exists and holds no `${`.
  An empty value counts as found (`POM.java:130`). It is not skipped.
- The interpolated text is documented as "not re-interpolated". That holds for
  the token just replaced (`Interpolation.SubstitutionNotReinterpolated`).
  But a later token of the original string rewrites every literal occurrence
  in the current string, and that includes text an earlier substitution
  inserted (`Interpolation.LaterTokenRewritesSubstitution`).
- The dependency node set is an XPath union, so the code reads it in
  document order. The model proves the union as a multiset
  (`Extraction.DependencyElementsUnion`).

## Model

| member | source | states |
|---|---|---|
| Dependencies.Equals | src/main/java/parser/Dependency.java:25-31 | equal exactly when the other object is a non-null Dependency with the same group and artifact; a copy differing only in version is always equal |
| Dependencies.EqualsIsEquivalence | src/main/java/parser/Dependency.java:25-31 | `equals` is reflexive, symmetric and transitive, ignores the version, and is false for null and for other classes |
| Dependencies.NameIdentifies | src/main/java/parser/Dependency.java:21-31 | when group ids hold no `/`, two dependencies have the same `getName()` exactly when they are `equals` |
| Dependencies.Name | src/main/java/parser/Dependency.java:21-23 | the name is the group, one slash, then the artifact; when the group holds no slash the first slash is the separator, so cutting there gives back group and artifact |
| Dependencies.Versioned | src/main/java/parser/POM.java:146-148 | the dependencies kept are exactly those whose version is non-empty, each as many times as it is declared |
| Dependencies.VersionedInOrder | src/main/java/parser/POMTree.java:81-90 | the kept dependencies are read at strictly increasing positions that cover every declared entry with a version, so declaration order is kept |
| Poms.AddAggregatorPom | src/main/java/parser/POM.java:50-53 | the child's parent becomes the aggregator, the child is appended to the aggregator's module list, and no other link or descriptor field changes |
| Poms.AddChildPom | src/main/java/parser/POM.java:55-58 | the child's parent becomes the inheritance parent, the child is appended to its children list, and nothing else changes |
| Poms.AddRepositoryUrl | src/main/java/parser/POM.java:60-63 | afterwards the URL is listed; a listed URL leaves the node unchanged, a new one is appended at the end; a duplicate-free list stays duplicate-free; no other field changes |
| Poms.AddRepositoryUrlIdempotent | src/main/java/parser/POM.java:60-63 | adding the same URL twice is the same as adding it once |
| Poms.AddProperty | src/main/java/parser/POM.java:65-71 | `getRawProperty(name)` then returns the new value, every other name reads as before, and no other field changes |
| Poms.RawProperty | src/main/java/parser/POM.java:69-71 | a value comes back exactly when the name is a raw property, and it is that property's value |
| Poms.WithCache | src/main/java/parser/POM.java:82-92 | an existing cache is kept; a missing one is built to hold exactly the raw entries whose value has no `${`, with their raw values |
| Poms.GetProperties | src/main/java/parser/POM.java:81-94 | the cache exists afterwards; the call that builds it returns the raw map, and a call that finds it returns the cache |
| Poms.GetPropertiesInconsistent | src/main/java/parser/POM.java:81-94 | for raw properties `{a: "${b}"}`, the first call's answer contains `a` and the second call's answer does not |
| Poms.GetPropertiesCorrected | src/main/java/parser/POM.java:81-94 | every call returns the filtered cache it leaves on the node |
| Poms.GetPropertiesCorrectedStable | src/main/java/parser/POM.java:81-115 | for a node whose cache was built from its raw map, repeated calls give the same node and map, no returned value holds `${`, and `getProperty(name)` answers from that map |
| Poms.GetProperty | src/main/java/parser/POM.java:111-115 | on a node without a cache, a value is returned exactly when the raw value exists and holds no `${`, and it is the raw value; on a node with a cache, the answer is the cached entry, stale or not |
| Poms.PropertiesMemoised | src/main/java/parser/POM.java:81-115 | building the cache is idempotent, and asking for one property never changes the answer to another |
| Poms.HasParentIgnoresStoredCoordinates | src/main/java/parser/POM.java:166-175 | rewriting the stored parent coordinates never changes `hasParent`, and without a linked parent it is false |
| Poms.HasParent | src/main/java/parser/POM.java:166-175 | a node has a parent only when its parent link is set and in the arena; a node without a link never has one |
| Poms.SameModule | src/main/java/parser/POM.java:194-204 | descriptor equality is groupId and artifactId equality, false for null and other classes |
| Poms.SameModuleIsEquivalence | src/main/java/parser/POM.java:194-204 | descriptor equality is an equivalence that ignores the version |
| Strings.Trim | src/main/java/parser/POM.java:103 | the result neither starts nor ends with a character at or below U+0020 and is no longer than the input |
| Strings.TrimIdempotent | src/main/java/parser/POM.java:103 | trimming twice equals trimming once |
| Strings.ReplaceAbsent | src/main/java/parser/POM.java:105 | replacing a target that does not occur leaves the string unchanged |
| Strings.ReplaceBySelf | src/main/java/parser/POM.java:105 | replacing a target by itself leaves the string unchanged |
| Strings.ReplaceWhole | src/main/java/parser/POM.java:105 | replacing the whole string by a value yields the value |
| Strings.ReplaceAll | src/main/java/parser/POM.java:105 | replacing a target by a value of the same length keeps the length of the string |
| Interpolation.CloseFrom | src/main/java/parser/POM.java:100 | the lazy `(.*?)}` finds the first `}` with no line terminator before it, and reports none only when every later `}` is preceded by a line terminator |
| Interpolation.Scan | src/main/java/parser/POM.java:100-102 | the tokens found are genuine `${…}` matches, do not overlap, come in order, and every position where a match could start is covered by one |
| Interpolation.Interpolate | src/main/java/parser/POM.java:97-109 | a string without `$` comes back unchanged; when every `$` opens a `${…}` token and no value looked up holds a `$`, the result is `Render`: the text between tokens kept, each token replaced by its trimmed name's value, or kept when the name has none |
| Interpolation.ApplyRenders | src/main/java/parser/POM.java:100-108 | the replace loop over the token texts found in the original string gives the same string as rendering token by token from left to right, under the same two conditions; a string without `$` renders as itself |
| Interpolation.ApplyTokens | src/main/java/parser/POM.java:102-107 | when no token text has a value, the loop leaves the string unchanged |
| Interpolation.ReplaceJoin | src/main/java/parser/POM.java:105 | on a string cut into plain text without `$` and `${…}` tokens, replacing one token text replaces exactly the tokens equal to it and leaves all other text alone |
| Interpolation.InterpolateUnresolved | src/main/java/parser/POM.java:102-106 | when no token's trimmed name has a value, the string is unchanged |
| Interpolation.InterpolateSingleToken | src/main/java/parser/POM.java:97-109 | `${name}` alone becomes the value of its trimmed name |
| Interpolation.SubstitutionNotReinterpolated | src/main/java/parser/POM.java:102-107 | with x ↦ `${y}` and y ↦ `1`, `${x}` becomes `${y}`: the inserted token is not expanded |
| Interpolation.LaterTokenRewritesSubstitution | src/main/java/parser/POM.java:102-107 | with a ↦ `${b}` and b ↦ `2`, `${a}${b}` becomes `22`: a later token of the original rewrites inserted text |
| Interpolation.StrayDollarRewritesText | src/main/java/parser/POM.java:100-107 | with a ↦ "" and b ↦ `X`, `$${a}{b}${b}` becomes `XX` while rendering token by token gives `${b}X`: removing `${a}` lets the stray `$` form a new `${b}` that the later replacement rewrites |
| Resolution.FindPropertyValue | src/main/java/parser/POM.java:117-136 | defined exactly when the walk stops within as many steps as there are nodes; at a node where the walk stops (a value without `${`, or no parent), the answer is that node's raw value |
| Resolution.EndsExactly | src/main/java/parser/POM.java:120-134 | the walk stops within as many steps as there are nodes exactly when some ancestor reached by `hasParent` steps stops it, that is, exactly when the Java loop exits |
| Resolution.GroundedEnds | src/main/java/parser/POM.java:120-134 | when the `hasParent` chain ends, the walk for every name stops |
| Resolution.FindReturnsFirstStop | src/main/java/parser/POM.java:117-136 | the walk returns the raw value at the first ancestor where it stops |
| Resolution.FirstStopExists | src/main/java/parser/POM.java:120-134 | on a walk that stops within `fuel` steps, a first stopping ancestor exists at most `fuel` steps up |
| Resolution.NearestStop | src/main/java/parser/POM.java:117-136 | the lookup answer is the raw value of the nearest ancestor where the walk stops, and that ancestor is fewer steps up than there are nodes |
| Resolution.UnresolvedValueAtRoot | src/main/java/parser/POM.java:130-135 | at a root, a value that still holds `${` is returned as it is |
| Resolution.InterpolateString | src/main/java/parser/POM.java:97-109 | a version without `$` is returned unchanged; when every `$` opens a token and no value found holds a `$`, the result is `Render` with each trimmed token name looked up by `findPropertyValue` against the node |
| Resolution.LookupIsFind | src/main/java/parser/POM.java:103 | for every token of the string, the lookup used is `findPropertyValue` of the trimmed name against the node, and that walk terminates |
| Resolution.Resolve | src/main/java/parser/POM.java:148-156 | resolution keeps group and artifact; a version without `$` leaves the dependency unchanged; a version with `$` is rendered through the node's property walk when every `$` opens a token and no value found holds a `$` |
| Resolution.ResolveResolvedBy | src/main/java/parser/POM.java:148-156 | a dependency with `$` in its version becomes the same group and artifact with `interpolateString(version, node)`; any other stays as it is |
| Resolution.GroundedVersionsEnd | src/main/java/parser/POM.java:142-156 | when the node's `hasParent` chain ends, every version with `$` can be resolved against it |
| Resolution.ResolveAll | src/main/java/parser/POM.java:142-160 | one output per dependency with a non-empty version, in order, each resolved |
| Resolution.ResolvedDependencies | src/main/java/parser/POM.java:142-160 | position by position over the versioned dependencies: same coordinates, unchanged when the version has no `$`, otherwise the version interpolated along the inheritance chain |
| Inheritance.LastMatch | src/main/java/parser/POMTree.java:70-74 | the parent back-reference is the LAST listed node whose coordinates match the declared parent, or none when nothing matches |
| Inheritance.Inheritors | src/main/java/parser/POMTree.java:66-75 | a node's new inheritance children are exactly the listed nodes that have a parent and declare this node's coordinates |
| Inheritance.ScanParents | src/main/java/parser/POMTree.java:70-75 | one child's scan changes no descriptor content, no aggregation list, and no other node's parent |
| Inheritance.ScanParentsEffect | src/main/java/parser/POMTree.java:70-75 | the scan appends the child once to every matching node, and the child's parent ends as the last match |
| Inheritance.CreateInheritanceTree | src/main/java/parser/POMTree.java:64-78 | descriptor content and aggregation lists are kept; each node's children list gains exactly its inheritors; each linked child's parent becomes its last match, others keep theirs |
| Inheritance.LinkFromParents | src/main/java/parser/POMTree.java:66-77 | a node's parent changes only when it is visited, has a parent, and a match exists |
| Inheritance.RootNeverLinked | src/main/java/parser/POMTree.java:66-68 | a node without a parent keeps none and is never adopted as an inheritance child |
| Extraction.Coordinate | src/main/java/parser/POMParser.java:97-115 | a coordinate is the descriptor's own value, or the `<parent>` block's when its own is empty; it is empty only when both are |
| Extraction.ParentCoordinate | src/main/java/parser/POMParser.java:118-125 | a declared parent coordinate is the text of the first matching `<parent>` field, or empty |
| Extraction.Packaging | src/main/java/parser/POMParser.java:58-62 | packaging is the text of `/project/packaging`, or empty when absent |
| Extraction.Modules | src/main/java/parser/POMParser.java:127-132 | one module name per `<module>` element, in document order |
| Extraction.Properties | src/main/java/parser/POMParser.java:134-139 | property names are exactly the tags under `<properties>`; a repeated tag keeps its last value |
| Extraction.DependencyElementsUnion | src/main/java/parser/POMParser.java:182-183 | the dependency elements read are exactly those of the two union branches, with multiplicity |
| Extraction.ReadDependencyLastWins | src/main/java/parser/POMParser.java:184-217 | each coordinate is the text of the LAST child element with that tag, or empty |
| Extraction.SelfReferenceExamples | src/main/java/parser/POMParser.java:222 | a `${project.version}` dependency is dropped; an ordinary one is kept |
| Extraction.ExtractDependencies | src/main/java/parser/POMParser.java:181-225 | no kept dependency references the project's own coordinates, and each other read dependency is kept as often as it was read |
| Extraction.Normalise | src/main/java/parser/POMParser.java:66-68 | the URL ends in `/`; one that already did is unchanged, otherwise one `/` is appended |
| Extraction.RepositoryUrls | src/main/java/parser/POMParser.java:64-72 | duplicate-free and `/`-ended; holds exactly central plus the normalised declared URLs; only central when none is declared |
| Extraction.FirstSurefire | src/main/java/parser/POMParser.java:157-164 | the plugin chosen is the FIRST whose artifactId is `maven-surefire-plugin`, or none when no plugin has it |
| Extraction.KeptSettings | src/main/java/parser/POMParser.java:168-177 | the settings kept are exactly the element children of `<configuration>` with non-blank trimmed text |
| Extraction.TestConfigurations | src/main/java/parser/POMParser.java:156-178 | empty without surefire; otherwise keys are the kept tags, the last occurrence's trimmed text wins, and no stored value is blank |
| Extraction.Extract | src/main/java/parser/POMParser.java:30-49 | a parsed node is unlinked and uncached, lists central once among duplicate-free URLs, and keeps no self-referencing dependency |
| Aggregation.Parse | src/main/java/parser/POMParser.java:30-49 | a missing document is an Unreadable error, a surefire plugin without configuration is a MissingConfiguration error, and otherwise the result is the extracted node |
| Aggregation.BuildTree | src/main/java/parser/POMTree.java:49-62 | a build appends at least the root node after the existing arena without changing it, the root has the parsed content, and a parse failure is the build's failure |
| Aggregation.BuildModules | src/main/java/parser/POMTree.java:53-60 | attaching modules changes only the aggregator's module list among existing nodes |
| Aggregation.BuildTreeShape | src/main/java/parser/POMTree.java:49-62 | a built subtree is closed over its index range, and its pre-order walk visits exactly that range in order |
| Aggregation.BuildModulesShape | src/main/java/parser/POMTree.java:53-60 | attaching modules keeps the aggregator's subtree closed and its pre-order walk equal to its index range |
| Aggregation.BuildTreeModules | src/main/java/parser/POMTree.java:53-59 | an aggregating descriptor gets one module per declared module, in declaration order, each parsed from the joined path; any other gets none |
| Aggregation.BuildModulesOrder | src/main/java/parser/POMTree.java:54-59 | modules are attached after the existing ones, one per name and in order, each linked back to the aggregator and carrying the parsed content of its joined path |
| Aggregation.PreOrderListSnoc | src/main/java/parser/POMTree.java:123-130 | the walk of one more child appends that child's whole subtree walk |
| Aggregation.PreOrder | src/main/java/parser/POMTree.java:123-130 | the walk from a node starts with that node and visits only nodes at or after it in the arena |
| Aggregation.PreOrderList | src/main/java/parser/POMTree.java:125-129 | walking an aggregator's module list visits only nodes after the aggregator |
| PomTrees.New | src/main/java/parser/POMTree.java:24-27 | a new tree is valid, unbuilt and remembers its directory |
| PomTrees.CreateAggregatorTree | src/main/java/parser/POMTree.java:49-62 | a built aggregation tree is non-empty and its pre-order list is every node in creation order |
| PomTrees.AggregatorRoot | src/main/java/parser/POMTree.java:49-52 | node 0 of a built tree holds the root document's parsed content and path |
| PomTrees.CreatePomTree | src/main/java/parser/POMTree.java:29-47 | a built tree is returned as is; a missing root file fails; a success is valid, rooted at node 0, with every node listed once in pre-order |
| PomTrees.CreatePomTreeIdempotent | src/main/java/parser/POMTree.java:30-31 | building a built tree again changes nothing |
| PomTrees.BuiltArena | src/main/java/parser/POMTree.java:29-47 | a fresh build is the aggregation tree of the root file, linked over its pre-order list |
| PomTrees.Linked | src/main/java/parser/POMTree.java:39-43 | the recorded tree is valid and rooted at node 0, lists every node exactly once in pre-order, and its arena is the inheritance pass over that list |
| PomTrees.BuiltFromRoot | src/main/java/parser/POMTree.java:29-47 | every node of the built tree keeps its parsed content, and node 0 is the root file as parsed |
| PomTrees.LinkedContent | src/main/java/parser/POMTree.java:41-43 | linking keeps every node's content and modules; a node with a parent moves to the last listed node matching its declared coordinates, and every other node keeps its aggregator |
| PomTrees.RawOfMembers | src/main/java/parser/POMTree.java:81-92 | a dependency is listed exactly when it has a version and some listed node declares it |
| PomTrees.RawDependencies | src/main/java/parser/POMTree.java:81-92 | an unbuilt tree has none; the `p`-th raw dependency is entry `Origins[p].1` of the versioned dependencies of node `pomList[Origins[p].0]` |
| PomTrees.OriginsEnumerate | src/main/java/parser/POMTree.java:81-92 | the origins strictly increase, by node and then by entry, and cover every versioned entry of every listed node: the raw list holds each node's versioned dependencies once, in list order and then in declaration order |
| PomTrees.TreeDependencies | src/main/java/parser/POMTree.java:94-101 | the resolved list matches the raw list position by position, and the `p`-th resolved dependency is the `p`-th raw one resolved against the node that declares it |
| PomTrees.OwnersOrigins | src/main/java/parser/POMTree.java:94-101 | the node that declares the `p`-th raw dependency is the listed node its origin names |
| PomTrees.ResolvedByOwners | src/main/java/parser/POMTree.java:94-101 | per-node resolution, concatenated over the list, resolves each raw dependency against its own declaring node |
| PomTrees.ResolvedMatchesRaw | src/main/java/parser/POMTree.java:81-101 | per-node resolution concatenated over the list corresponds to the raw list |
| PomTrees.DynamicDependencies | src/main/java/parser/POMTree.java:103-113 | exactly the resolved dependencies with a dynamic version, each as often as it occurs |
| PomTrees.DynamicVersions | src/main/java/parser/POMTree.java:108 | `RELEASE`, `LATEST` and a `SNAPSHOT` suffix are dynamic; a plain or lower-case version is not |
| PomTrees.TreeRepositoryUrls | src/main/java/parser/POMTree.java:140-146 | every node's URLs, each once, in order of first appearance |
| PomTrees.CentralAlwaysListed | src/main/java/parser/POMTree.java:140-146 | a built tree always lists the central repository |
| PomTrees.PathListOfBuild | src/main/java/parser/POMTree.java:132-138 | a built tree lists one path per node, the first being the root file |
| PomTrees.PathList | src/main/java/parser/POMTree.java:132-138 | one path per listed node, and the `k`-th is the path of the `k`-th listed node |
| PomTrees.DependenciesMap | src/main/java/parser/POMTree.java:115-121 | keys are exactly the listed nodes' paths; a shared path maps to the last such node's resolved dependencies |
| PomTrees.DependenciesMapKeys | src/main/java/parser/POMTree.java:116-119 | the map's iteration order: each path once, ordered by where it first appears in the node list |
| PomTrees.DependenciesMapKeysAreKeys | src/main/java/parser/POMTree.java:115-121 | the ordered key list holds exactly the keys of the map |
| PomTrees.UrlsOf | src/main/java/parser/POMTree.java:140-146 | a URL is collected exactly when some listed node declares it |
| Scenario.LinkedParents | src/main/java/parser/POMTree.java:64-78 | in a root/base/app repository, `app` is re-linked to `base`, `base` stays under `root`, and `root` has no parent |
| Scenario.InheritedVersionResolves | src/main/java/parser/POM.java:117-160 | `app`'s `${rev}` resolves to `base`'s value, the nearest up the inheritance chain, not the aggregator's |
| Scenario.ResolvesThroughParent | src/main/java/parser/POM.java:117-136 | on any three-node chain of that shape, the child's `${rev}` takes the middle node's value |

## Left out

- Reading files, the XML parser, the transformer and the XPath engine. A
  document is an abstract element tree. The queries the parser issues are
  written out in `Xml` as child steps, `*`, `//name` and relative child
  lookups.
- `Paths.get(...)` joining and normalisation. These are the `Workspace`
  functions `moduleFile` and `rootFile`.
- `File.exists` is the `present` set.
- An unreadable module file makes the Java code fail with an exception
  (`content.equals` on null). The model returns `Err(Unreadable)`, which
  fails the whole build the same way.
- The `raw` document text, `relativePath`, `relativeLens` and `repoName` are
  stored but not read by the core.
- The `println` calls, `toString`, and the Lombok getters and setters.
- `hashCode` of `POM` and `Dependency` includes the version while `equals`
  ignores it. No core operation hashes these objects.
- The private `POMParser.getProperty` helper is never called.
- `addDependency`, `addModule` and `addTestConfigurations` are one-line
  appends and puts. Extraction builds those lists and the map directly.
- Aggregation.BuildTree: the Java recursion has no depth bound. The model
  carries a `fuel` bound and fails with `DepthExceeded` when it runs out,
  so a cyclic `<modules>` structure is an error value rather than a stack
  overflow.
- Resolution.FindPropertyValue: requires that the walk stops within as
  many steps as there are nodes (`Ends`). `EndsExactly` shows that this is
  exactly the condition under which the Java loop exits. When no ancestor
  stops the walk, the `hasParent` links form a cycle in which no node has a
  plain value for the name, and the Java loop does not terminate. The model
  does not describe that run.
- Resolution.InterpolateString, Resolution.Resolve, Resolution.ResolveAll,
  Resolution.ResolvedDependencies, PomTrees.TreeDependencies,
  PomTrees.DynamicDependencies and PomTrees.DependenciesMap: require the
  lookups they make to terminate (`LookupsEnd`, `VersionsEnd`,
  `AllResolve`). Without that the Java call does not return.
- PomTrees.DependenciesMap: a Dafny `map` has no key order. The order in
  which the `LinkedHashMap` yields its keys (first insertion of each path)
  is stated by `DependenciesMapKeys`, and `DependenciesMapKeysAreKeys` ties
  the two together.
- Interpolation.Interpolate: the `Render` equality needs two conditions.
  Every `$` must open a `${…}` token, and no value looked up may hold a
  `$`. Without them `String.replace` can rewrite text outside the tokens
  the matcher found. For `"$${a}{b}${b}"` with a ↦ "" and b ↦ "X", the loop
  gives `"XX"` while rendering gives `"${b}X"` (`StrayDollarRewritesText`).
  `LaterTokenRewritesSubstitution` shows the case of a value holding `$`.
- Interpolation.InterpolateUnresolved: states only the case where no token
  has a value. A mix of resolved and unresolved tokens is stated by
  `Interpolate`'s `Render` equality, under its two conditions.
- Strings.ReplaceAll: its own contract states only that an equal-length
  replacement keeps the length. What a replacement does on the
  interpolation path is stated by `Interpolation.ReplaceJoin`, and the
  no-occurrence and self-replacement cases by `ReplaceAbsent` and
  `ReplaceBySelf`.
- Aggregation.PreOrder and Aggregation.PreOrderList: their own contracts
  give bounds only. The exact list on a built tree is stated by
  `BuildTreeShape`.
- Poms.HasParent: its own contract states only the link conditions.
  `HasParentIgnoresStoredCoordinates` states the role of the parent's
  coordinates.
- Extraction.TestConfigurations: requires the surefire plugin to have a
  `<configuration>` (`Readable`). The Java code throws a null-pointer
  exception otherwise. `Aggregation.Parse` turns that case into a
  `MissingConfiguration` error.
- Inheritance.CreateInheritanceTree: requires a duplicate-free node list.
  Its only caller passes the pre-order list, which is proved to be every
  index once.
- Strings.Trim: states the trimmed ends and the length bound, not that the
  result is the contiguous middle of the input; `TrimStart` and `TrimEnd`
  each state their slice.
- Extraction.KeptSettings: states which children are kept, not their order.
  The order only matters through the last-write-wins map, which
  `TestConfigurations` states.
- Extraction.ExtractDependencies: states membership and multiplicity, not
  the order of the kept dependencies.
- Extraction.DependencyElementsUnion: states the union as a multiset. The
  XPath union's document order is not modelled.
- PomTrees.DynamicDependencies: states membership and multiplicity, not
  order.

## Findings

| source | as written | input that shows it | evidently intended | confidence | as-written member | corrected member |
|---|---|---|---|---|---|---|
| src/main/java/parser/POM.java:81-94 | the call that builds the filtered property cache returns the raw map, while later calls return the filtered cache | raw properties `{a: "${b}"}`: the first `getProperties()` contains `a`, the second does not | every call returns the filtered map | high (not executed) | Poms.GetPropertiesInconsistent | Poms.GetPropertiesCorrectedStable |
