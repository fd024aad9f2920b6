/** The extraction rules of `POMParser`: how one descriptor document fills a
    fresh node. Each rule reads the abstract document through the queries of
    `Xml`; reading the file and evaluating real XPath are outside the model. */
module Extraction {
  import opened Collections
  import opened Strings
  import opened Dependencies
  import opened Poms
  import opened Xml

  /** The repository every descriptor lists last unless it declared it. */
  const Central: string := "https://repo1.maven.org/maven2/"

  /** A coordinate field declared at project level, `/project/<field>`. */
  function Own(doc: XmlNode, field: string): string
  {
    Value(doc, ["project", field])
  }

  /** A coordinate field of the parent block, `/project/parent/<field>`. */
  function FromParentBlock(doc: XmlNode, field: string): string
  {
    Value(doc, ["project", "parent", field])
  }

  /** `addProjectAttributes`, for one of groupId, artifactId, version: the
      project-level value when it is non-empty, otherwise the value of the
      parent block. The result is empty only when both are. */
  function Coordinate(doc: XmlNode, field: string): (r: string)
    ensures Own(doc, field) != "" ==> r == Own(doc, field)
    ensures Own(doc, field) == "" ==> r == FromParentBlock(doc, field)
    ensures r == "" <==> Own(doc, field) == "" && FromParentBlock(doc, field) == ""
  {
    var own := Own(doc, field);
    if own == "" then FromParentBlock(doc, field) else own
  }

  /** `addParentPOMInfo` for one field: the parent block's value verbatim,
      empty when the document has no such element. */
  function ParentCoordinate(doc: XmlNode, field: string): (r: string)
    ensures Select(doc, ["project", "parent", field]) == [] ==> r == ""
    ensures Select(doc, ["project", "parent", field]) != [] ==>
              r == TextContent(Select(doc, ["project", "parent", field])[0])
  {
    FromParentBlock(doc, field)
  }

  /** `addPackaging`: `/project/packaging` verbatim, empty when absent. */
  function Packaging(doc: XmlNode): (r: string)
    ensures Select(doc, ["project", "packaging"]) == [] ==> r == ""
    ensures Select(doc, ["project", "packaging"]) != [] ==>
              r == TextContent(Select(doc, ["project", "packaging"])[0])
  {
    Value(doc, ["project", "packaging"])
  }

  /** The text of each node, in order. */
  function Texts(ns: seq<XmlNode>): (r: seq<string>)
    ensures |r| == |ns|
    ensures forall k :: 0 <= k < |r| ==> r[k] == TextContent(ns[k])
  {
    if ns == [] then [] else [TextContent(ns[0])] + Texts(ns[1..])
  }

  /** `addModules`: the text of every `/project/modules/module`, in document
      order, duplicates kept. */
  function Modules(doc: XmlNode): (r: seq<string>)
    ensures |r| == |Select(doc, ["project", "modules", "module"])|
    ensures forall k :: 0 <= k < |r| ==> r[k] == TextContent(Select(doc, ["project", "modules", "module"])[k])
  {
    Texts(Select(doc, ["project", "modules", "module"]))
  }

  /** The element children of every `/project/properties` element (the
      wildcard step), in document order. */
  function PropertyElements(doc: XmlNode): (r: seq<XmlNode>)
    ensures forall k :: 0 <= k < |r| ==> r[k].Element?
  {
    StepAny(Select(doc, ["project", "properties"]))
  }

  /** Name/text pairs of element nodes, in order. */
  function Entries(ns: seq<XmlNode>): (r: seq<(string, string)>)
    requires forall k :: 0 <= k < |ns| ==> ns[k].Element?
    ensures |r| == |ns|
    ensures forall k :: 0 <= k < |r| ==> r[k] == (ns[k].tag, TextContent(ns[k]))
  {
    if ns == [] then [] else [(ns[0].tag, TextContent(ns[0]))] + Entries(ns[1..])
  }

  /** `addProperties`: every element under `<properties>` maps its tag name to
      its text; of two elements with the same name the later one wins. */
  function Properties(doc: XmlNode): (r: map<string, string>)
    ensures r.Keys == KeysOf(Entries(PropertyElements(doc)))
    ensures forall j :: LastWrite(Entries(PropertyElements(doc)), j) ==>
              var e := PropertyElements(doc)[j]; e.tag in r && r[e.tag] == TextContent(e)
  {
    PutAll(map[], Entries(PropertyElements(doc)))
  }

  /** The dependency elements below one child of `<project>`: the children of
      a `<dependencies>` block, or those of each `<dependencies>` block of a
      `<dependencyManagement>` block. */
  function DependencyElementsUnder(c: XmlNode): seq<XmlNode>
  {
    if IsElement(c, "dependencies") then ChildElements(c, "dependency")
    else if IsElement(c, "dependencyManagement") then Step(ChildElements(c, "dependencies"), "dependency")
    else []
  }

  /** The node set of the union
      `/project/dependencies/dependency | /project/dependencyManagement/dependencies/dependency`,
      in document order: direct and managed dependencies interleave as their
      blocks do in the file. */
  function DependencyElements(doc: XmlNode): seq<XmlNode>
  {
    if IsElement(doc, "project") then ConcatMap(doc.children, DependencyElementsUnder) else []
  }

  /** A child step from a single node is that node's children of the name. */
  lemma StepSingle(n: XmlNode, t: string)
    ensures Step([n], t) == ChildElements(n, t)
  {
    assert [n][0] == n && [n][1..] == [];
    assert Step([], t) == [];
    assert Step([n], t) == ChildElements(n, t) + Step([], t);
  }

  /** Dropping the first child of an element drops at most that child from
      its children of any name. */
  lemma ChildElementsCons(tag: string, cs: seq<XmlNode>, t: string)
    requires cs != []
    ensures ChildElements(Element(tag, cs), t)
              == (if IsElement(cs[0], t) then [cs[0]] else []) + ChildElements(Element(tag, cs[1..]), t)
  {
  }

  /** Below the children `cs` of a project element, the dependency elements
      in document order are, as a multiset, those of the direct path plus
      those of the managed path. */
  lemma {:induction false} UnionUnder(tag: string, cs: seq<XmlNode>)
    ensures var p := Element(tag, cs);
      multiset(ConcatMap(cs, DependencyElementsUnder))
        == multiset(Step(ChildElements(p, "dependencies"), "dependency"))
           + multiset(Step(Step(ChildElements(p, "dependencyManagement"), "dependencies"), "dependency"))
    decreases |cs|
  {
    if cs != [] {
      var c := cs[0];
      UnionUnder(tag, cs[1..]);
      DirectCons(tag, cs);
      ManagedCons(tag, cs);
      assert ConcatMap(cs, DependencyElementsUnder)
             == DependencyElementsUnder(c) + ConcatMap(cs[1..], DependencyElementsUnder);
    }
  }

  /** The direct path below a project whose first child is `cs[0]`. */
  lemma DirectCons(tag: string, cs: seq<XmlNode>)
    requires cs != []
    ensures Step(ChildElements(Element(tag, cs), "dependencies"), "dependency")
              == (if IsElement(cs[0], "dependencies") then ChildElements(cs[0], "dependency") else [])
                 + Step(ChildElements(Element(tag, cs[1..]), "dependencies"), "dependency")
  {
    var c := cs[0];
    var rest := ChildElements(Element(tag, cs[1..]), "dependencies");
    var d := if IsElement(c, "dependencies") then [c] else [];
    ChildElementsCons(tag, cs, "dependencies");
    ConcatMapSplit(d, rest, (n: XmlNode) => ChildElements(n, "dependency"));
    StepSingle(c, "dependency");
    assert Step([], "dependency") == [];
  }

  /** The managed path below a project whose first child is `cs[0]`. */
  lemma ManagedCons(tag: string, cs: seq<XmlNode>)
    requires cs != []
    ensures Step(Step(ChildElements(Element(tag, cs), "dependencyManagement"), "dependencies"), "dependency")
              == (if IsElement(cs[0], "dependencyManagement")
                  then Step(ChildElements(cs[0], "dependencies"), "dependency") else [])
                 + Step(Step(ChildElements(Element(tag, cs[1..]), "dependencyManagement"), "dependencies"), "dependency")
  {
    var c := cs[0];
    var rest := ChildElements(Element(tag, cs[1..]), "dependencyManagement");
    var m := if IsElement(c, "dependencyManagement") then [c] else [];
    ChildElementsCons(tag, cs, "dependencyManagement");
    ConcatMapSplit(m, rest, (n: XmlNode) => ChildElements(n, "dependencies"));
    ConcatMapSplit(Step(m, "dependencies"), Step(rest, "dependencies"), (n: XmlNode) => ChildElements(n, "dependency"));
    StepSingle(c, "dependencies");
    assert Step([], "dependencies") == [] && Step([], "dependency") == [];
  }

  /** `DependencyElements` lists exactly the nodes of the two paths of the
      union, each as often as it is selected. */
  lemma DependencyElementsUnion(doc: XmlNode)
    ensures multiset(DependencyElements(doc))
              == multiset(Select(doc, ["project", "dependencies", "dependency"]))
                 + multiset(Select(doc, ["project", "dependencyManagement", "dependencies", "dependency"]))
  {
    if IsElement(doc, "project") {
      UnionUnder(doc.tag, doc.children);
      StepSingle(doc, "dependencies");
      StepSingle(doc, "dependencyManagement");
      assert Element(doc.tag, doc.children) == doc;
      var direct: seq<string> := ["project", "dependencies", "dependency"];
      assert direct[1..] == ["dependencies", "dependency"];
      assert ["dependencies", "dependency"][1..] == ["dependency"];
      assert ["dependency"][1..] == [];
      calc {
        Select(doc, direct);
        Steps([doc], ["dependencies", "dependency"]);
        Steps(Step([doc], "dependencies"), ["dependency"]);
        Steps(Step(Step([doc], "dependencies"), "dependency"), []);
      }
      var managed: seq<string> := ["project", "dependencyManagement", "dependencies", "dependency"];
      assert managed[1..] == ["dependencyManagement", "dependencies", "dependency"];
      assert ["dependencyManagement", "dependencies", "dependency"][1..] == ["dependencies", "dependency"];
      calc {
        Select(doc, managed);
        Steps([doc], ["dependencyManagement", "dependencies", "dependency"]);
        Steps(Step([doc], "dependencyManagement"), ["dependencies", "dependency"]);
        Steps(Step(Step([doc], "dependencyManagement"), "dependencies"), ["dependency"]);
        Steps(Step(Step(Step([doc], "dependencyManagement"), "dependencies"), "dependency"), []);
      }
    } else {
      assert Step([], "dependencies") == [] && Step([], "dependencyManagement") == [];
      assert Step([], "dependency") == [];
    }
  }

  /** The text of the last child element named `t` among `cs`. */
  function LastNamed(cs: seq<XmlNode>, t: string): (r: Option<string>)
    ensures r.None? ==> forall k :: 0 <= k < |cs| ==> !IsElement(cs[k], t)
    ensures r.Some? ==> exists k :: 0 <= k < |cs| && IsElement(cs[k], t) && r.value == TextContent(cs[k])
                          && forall j :: k < j < |cs| ==> !IsElement(cs[j], t)
  {
    if cs == [] then None
    else
      var rest := LastNamed(cs[1..], t);
      if rest.Some? then
        var k :| 0 <= k < |cs[1..]| && IsElement(cs[1..][k], t) && rest.value == TextContent(cs[1..][k])
                 && forall j :: k < j < |cs[1..]| ==> !IsElement(cs[1..][j], t);
        assert cs[k + 1] == cs[1..][k];
        assert forall j :: k + 1 < j < |cs| ==> cs[j] == cs[1..][j - 1];
        rest
      else if IsElement(cs[0], t) then
        assert forall j :: 0 < j < |cs| ==> cs[j] == cs[1..][j - 1];
        Some(TextContent(cs[0]))
      else None
  }

  /** The value a field takes: the last matching child's text, or what it
      held before. */
  function OrElse(o: Option<string>, d: string): string
  {
    if o.Some? then o.value else d
  }

  /** The child loop of `addDependencies`, from the fields read so far:
      `groupId`, `artifactId` and `version` children overwrite their field,
      other children are skipped. */
  function ReadFields(cs: seq<XmlNode>, g: string, art: string, v: string): Dependency
  {
    if cs == [] then Dependency(g, art, v)
    else
      var c := cs[0];
      if IsElement(c, "groupId") then ReadFields(cs[1..], TextContent(c), art, v)
      else if IsElement(c, "artifactId") then ReadFields(cs[1..], g, TextContent(c), v)
      else if IsElement(c, "version") then ReadFields(cs[1..], g, art, TextContent(c))
      else ReadFields(cs[1..], g, art, v)
  }

  /** The dependency one `<dependency>` element denotes. */
  function ReadDependency(el: XmlNode): Dependency
  {
    ReadFields(if el.Element? then el.children else [], "", "", "")
  }

  /** Each field of a read dependency is the text of the LAST child element
      with that tag, and empty when there is none. */
  lemma ReadDependencyLastWins(el: XmlNode)
    ensures var cs := if el.Element? then el.children else [];
      ReadDependency(el) == Dependency(OrElse(LastNamed(cs, "groupId"), ""),
                                       OrElse(LastNamed(cs, "artifactId"), ""),
                                       OrElse(LastNamed(cs, "version"), ""))
  {
    ReadFieldsLastWins(if el.Element? then el.children else [], "", "", "");
  }

  lemma {:induction false} ReadFieldsLastWins(cs: seq<XmlNode>, g: string, art: string, v: string)
    ensures ReadFields(cs, g, art, v) == Dependency(OrElse(LastNamed(cs, "groupId"), g),
                                                    OrElse(LastNamed(cs, "artifactId"), art),
                                                    OrElse(LastNamed(cs, "version"), v))
  {
    if cs != [] {
      var c := cs[0];
      if IsElement(c, "groupId") {
        ReadFieldsLastWins(cs[1..], TextContent(c), art, v);
      } else if IsElement(c, "artifactId") {
        ReadFieldsLastWins(cs[1..], g, TextContent(c), v);
      } else if IsElement(c, "version") {
        ReadFieldsLastWins(cs[1..], g, art, TextContent(c));
      } else {
        ReadFieldsLastWins(cs[1..], g, art, v);
      }
    }
  }

  /** A dependency that names the project's own coordinates: its groupId
      mentions `project.groupId`, its artifactId `project.artifactId`, or its
      version `project.version` or `project.parent.version`. */
  predicate SelfReferencing(d: Dependency)
  {
    || Contains(d.groupId, "project.groupId")
    || Contains(d.artifactId, "project.artifactId")
    || Contains(d.version, "project.version")
    || Contains(d.version, "project.parent.version")
  }

  /** A version written as `${project.version}` marks a self-reference; an
      ordinary library coordinate does not. */
  lemma SelfReferenceExamples()
    ensures SelfReferencing(Dependency("g", "core", "${project.version}"))
    ensures !SelfReferencing(Dependency("junit", "junit", "4.12"))
  {
    var v := "${project.version}";
    assert v[2..][..15] == "project.version";
    assert StartsWith(v[2..], "project.version");
    assert v[1..][1..] == v[2..];
    assert Contains(v[1..], "project.version");
    assert Contains(v, "project.version");
  }

  /** The dependency read from each element, in order. */
  function ReadAll(els: seq<XmlNode>): (r: seq<Dependency>)
    ensures |r| == |els|
    ensures forall k :: 0 <= k < |r| ==> r[k] == ReadDependency(els[k])
  {
    if els == [] then [] else [ReadDependency(els[0])] + ReadAll(els[1..])
  }

  /** `addDependencies`: the dependencies read from the dependency elements,
      in document order and duplicates kept, without the self-referencing
      ones. */
  function ExtractDependencies(doc: XmlNode): (r: seq<Dependency>)
    ensures |r| <= |DependencyElements(doc)|
    ensures forall k :: 0 <= k < |r| ==> !SelfReferencing(r[k])
    ensures forall d :: d in r <==> d in ReadAll(DependencyElements(doc)) && !SelfReferencing(d)
    ensures forall d :: multiset(r)[d] == if SelfReferencing(d) then 0 else multiset(ReadAll(DependencyElements(doc)))[d]
  {
    FilterCounts(ReadAll(DependencyElements(doc)), (d: Dependency) => !SelfReferencing(d));
    Filter(ReadAll(DependencyElements(doc)), (d: Dependency) => !SelfReferencing(d))
  }

  /** A declared repository URL with a trailing slash added when missing. */
  function Normalise(u: string): (r: string)
    ensures EndsWith(r, "/")
    ensures EndsWith(u, "/") ==> r == u
    ensures !EndsWith(u, "/") ==> r == u + "/"
  {
    if EndsWith(u, "/") then u
    else
      assert (u + "/")[|u + "/"| - 1..] == "/";
      u + "/"
  }

  /** Each declared URL normalised, in order. */
  function NormaliseAll(us: seq<string>): (r: seq<string>)
    ensures |r| == |us|
    ensures forall k :: 0 <= k < |r| ==> r[k] == Normalise(us[k]) && EndsWith(r[k], "/")
  {
    if us == [] then [] else [Normalise(us[0])] + NormaliseAll(us[1..])
  }

  /** The declared repository URLs, `/project/repositories/repository/url`. */
  function DeclaredUrls(doc: XmlNode): seq<string>
  {
    Texts(Select(doc, ["project", "repositories", "repository", "url"]))
  }

  /** `addRepositoryUrl` of the parser: every declared URL, normalised, added
      without duplicates in first-occurrence order, then the central
      repository. Every entry ends with a slash, the central repository is
      always present, and without declared repositories it is the only
      entry. */
  function RepositoryUrls(doc: XmlNode): (r: seq<string>)
    ensures NoDups(r)
    ensures Central in r
    ensures forall k :: 0 <= k < |r| ==> EndsWith(r[k], "/")
    ensures forall u :: u in r <==> u == Central || u in NormaliseAll(DeclaredUrls(doc))
    ensures DeclaredUrls(doc) == [] ==> r == [Central]
  {
    var declared := DedupInto([], NormaliseAll(DeclaredUrls(doc)));
    AddUniqueIdempotent(declared, Central);
    SlashEnded(declared, NormaliseAll(DeclaredUrls(doc)));
    AddUnique(declared, Central)
  }

  /** The URLs kept from normalised ones, and the central one, all end with
      a slash. */
  lemma SlashEnded(declared: seq<string>, normalised: seq<string>)
    requires forall u :: u in declared ==> u in normalised
    requires forall k :: 0 <= k < |normalised| ==> EndsWith(normalised[k], "/")
    ensures forall k :: 0 <= k < |AddUnique(declared, Central)| ==> EndsWith(AddUnique(declared, Central)[k], "/")
  {
    assert EndsWith(Central, "/");
    forall k | 0 <= k < |AddUnique(declared, Central)|
      ensures EndsWith(AddUnique(declared, Central)[k], "/")
    {
      var u := AddUnique(declared, Central)[k];
      if u != Central {
        assert u in declared;
        var j :| 0 <= j < |normalised| && normalised[j] == u;
      }
    }
  }

  /** The first element of `ps` that is the surefire plugin. */
  function FirstSurefire(ps: seq<XmlNode>): (r: Option<XmlNode>)
    ensures r.None? ==> forall k :: 0 <= k < |ps| ==> !IsSurefire(ps[k])
    ensures r.Some? ==> exists k :: 0 <= k < |ps| && ps[k] == r.value && IsSurefire(ps[k])
                          && forall j :: 0 <= j < k ==> !IsSurefire(ps[j])
  {
    if ps == [] then None
    else if IsSurefire(ps[0]) then Some(ps[0])
    else
      var rest := FirstSurefire(ps[1..]);
      FirstSurefireTail(ps, rest);
      rest
  }

  /** A `<plugin>` element whose `artifactId` child reads
      `maven-surefire-plugin`. */
  predicate IsSurefire(p: XmlNode)
  {
    RelValue(p, "artifactId") == "maven-surefire-plugin"
  }

  /** Skipping a first plugin that is not surefire keeps the first-match
      characterisation. */
  lemma FirstSurefireTail(ps: seq<XmlNode>, rest: Option<XmlNode>)
    requires ps != [] && !IsSurefire(ps[0])
    requires rest.None? ==> forall k :: 0 <= k < |ps[1..]| ==> !IsSurefire(ps[1..][k])
    requires rest.Some? ==> exists k :: 0 <= k < |ps[1..]| && ps[1..][k] == rest.value && IsSurefire(ps[1..][k])
                              && forall j :: 0 <= j < k ==> !IsSurefire(ps[1..][j])
    ensures rest.None? ==> forall k :: 0 <= k < |ps| ==> !IsSurefire(ps[k])
    ensures rest.Some? ==> exists k :: 0 <= k < |ps| && ps[k] == rest.value && IsSurefire(ps[k])
                             && forall j :: 0 <= j < k ==> !IsSurefire(ps[j])
  {
    if rest.Some? {
      var k :| 0 <= k < |ps[1..]| && ps[1..][k] == rest.value && IsSurefire(ps[1..][k])
               && forall j :: 0 <= j < k ==> !IsSurefire(ps[1..][j]);
      FirstSurefireShift(ps, k);
    } else {
      assert forall j :: 1 <= j < |ps| ==> ps[j] == ps[1..][j - 1];
    }
  }

  /** The first surefire plugin of the tail, found at `k`, sits at `k + 1`
      of the whole list when the head is not one. */
  lemma FirstSurefireShift(ps: seq<XmlNode>, k: nat)
    requires ps != [] && !IsSurefire(ps[0]) && k < |ps| - 1
    requires IsSurefire(ps[1..][k]) && forall j :: 0 <= j < k ==> !IsSurefire(ps[1..][j])
    ensures ps[k + 1] == ps[1..][k] && IsSurefire(ps[k + 1])
    ensures forall j :: 0 <= j < k + 1 ==> !IsSurefire(ps[j])
  {
    forall j | 1 <= j < k + 1 ensures !IsSurefire(ps[j]) {
      assert ps[j] == ps[1..][j - 1];
    }
  }

  /** The surefire plugin of the document: the first `//plugin` whose
      `artifactId` child reads `maven-surefire-plugin`. */
  function Surefire(doc: XmlNode): Option<XmlNode>
  {
    FirstSurefire(AllNamed(doc, "plugin"))
  }

  /** The parser dereferences the surefire plugin's `<configuration>` child
      without a check, so a document it can read either has no surefire
      plugin or gives it a configuration. */
  predicate Readable(doc: XmlNode)
  {
    Surefire(doc).Some? ==> FirstChild(Surefire(doc).value, "configuration").Some?
  }

  /** Configuration children kept: elements whose text is not blank. */
  predicate KeptSetting(c: XmlNode)
  {
    c.Element? && !IsBlank(TextContent(c))
  }

  /** The tag and trimmed text of each element, in order. */
  function Settings(ks: seq<XmlNode>): (r: seq<(string, string)>)
    ensures |r| == |ks|
    ensures forall k :: 0 <= k < |r| ==> r[k] == (TagOf(ks[k]), Trim(TextContent(ks[k])))
  {
    if ks == [] then [] else [(TagOf(ks[0]), Trim(TextContent(ks[0])))] + Settings(ks[1..])
  }

  /** A kept setting's stored value is non-empty and already trimmed. */
  lemma KeptValue(c: XmlNode)
    requires KeptSetting(c)
    ensures StoredValue(Trim(TextContent(c)))
  {
    TrimIdempotent(TextContent(c));
  }

  /** The configuration children the parser keeps, in document order. */
  function KeptSettings(p: XmlNode): (r: seq<XmlNode>)
    requires FirstChild(p, "configuration").Some?
    ensures forall k :: 0 <= k < |r| ==> KeptSetting(r[k])
    ensures forall c :: c in r <==> c in FirstChild(p, "configuration").value.children && KeptSetting(c)
  {
    Filter(FirstChild(p, "configuration").value.children, KeptSetting)
  }

  /** `addTestConfigurations`: no surefire plugin gives an empty map;
      otherwise each kept child of the plugin's configuration maps its tag to
      its trimmed text, a later child overwriting an earlier one of the same
      tag. Every stored value is non-empty and already trimmed. */
  function TestConfigurations(doc: XmlNode): (r: map<string, string>)
    requires Readable(doc)
    ensures Surefire(doc).None? ==> r == map[]
    ensures Surefire(doc).Some? ==>
              var ks := KeptSettings(Surefire(doc).value);
              r.Keys == (set k | 0 <= k < |ks| :: TagOf(ks[k]))
              && forall j :: LastWrite(Settings(ks), j) ==> r[TagOf(ks[j])] == Trim(TextContent(ks[j]))
    ensures forall k :: k in r ==> StoredValue(r[k])
  {
    match Surefire(doc)
    case None => map[]
    case Some(p) =>
      var ks := KeptSettings(p);
      SettingsMap(ks);
      PutAll(map[], Settings(ks))
  }

  /** The map built from kept settings is keyed by their tags and holds
      only stored values. */
  lemma SettingsMap(ks: seq<XmlNode>)
    requires forall k :: 0 <= k < |ks| ==> KeptSetting(ks[k])
    ensures PutAll(map[], Settings(ks)).Keys == (set k | 0 <= k < |ks| :: TagOf(ks[k]))
    ensures forall k :: k in PutAll(map[], Settings(ks)) ==> StoredValue(PutAll(map[], Settings(ks))[k])
  {
    SettingsMapKeys(ks);
    SettingsStored(ks);
    PutAllValues(Settings(ks), StoredValue);
  }

  lemma SettingsMapKeys(ks: seq<XmlNode>)
    ensures PutAll(map[], Settings(ks)).Keys == (set k | 0 <= k < |ks| :: TagOf(ks[k]))
  {
    PutAllFreshKeys(Settings(ks));
    SettingsKeys(ks);
  }

  /** Every value of the kept settings is stored non-empty and trimmed. */
  lemma SettingsStored(ks: seq<XmlNode>)
    requires forall k :: 0 <= k < |ks| ==> KeptSetting(ks[k])
    ensures forall k :: 0 <= k < |Settings(ks)| ==> StoredValue(Settings(ks)[k].1)
  {
    forall k | 0 <= k < |ks| ensures StoredValue(Settings(ks)[k].1) {
      KeptValue(ks[k]);
    }
  }

  /** A value as the parser stores it: non-empty and trimmed. */
  predicate StoredValue(v: string)
  {
    v != "" && Trim(v) == v
  }

  /** The keys written by the settings are the tags of the elements. */
  lemma SettingsKeys(ks: seq<XmlNode>)
    ensures KeysOf(Settings(ks)) == (set k | 0 <= k < |ks| :: TagOf(ks[k]))
  {
    SettingsKeysWritten(ks);
    SettingsTagsWritten(ks);
  }

  lemma SettingsKeysWritten(ks: seq<XmlNode>)
    ensures KeysOf(Settings(ks)) <= (set k | 0 <= k < |ks| :: TagOf(ks[k]))
  {
    var s := Settings(ks);
    forall t | t in KeysOf(s) ensures t in (set k | 0 <= k < |ks| :: TagOf(ks[k])) {
      var j :| 0 <= j < |s| && s[j].0 == t;
      assert TagOf(ks[j]) == t;
    }
  }

  lemma SettingsTagsWritten(ks: seq<XmlNode>)
    ensures (set k | 0 <= k < |ks| :: TagOf(ks[k])) <= KeysOf(Settings(ks))
  {
    var s := Settings(ks);
    forall t | t in (set k | 0 <= k < |ks| :: TagOf(ks[k])) ensures t in KeysOf(s) {
      var j :| 0 <= j < |ks| && TagOf(ks[j]) == t;
      assert s[j].0 == t;
    }
  }

  /** A property every written value has, every value of the built map has. */
  lemma PutAllValues(kvs: seq<(string, string)>, p: string -> bool)
    requires forall k :: 0 <= k < |kvs| ==> p(kvs[k].1)
    ensures forall key :: key in PutAll(map[], kvs) ==> p(PutAll(map[], kvs)[key])
  {
    forall key | key in PutAll(map[], kvs) ensures p(PutAll(map[], kvs)[key]) {
      var j := SettingValueOrigin(kvs, key);
    }
  }

  /** Every value `PutAll` leaves in a map built from `kvs` alone is one of
      the values written. */
  lemma SettingValueOrigin(kvs: seq<(string, string)>, k: string) returns (j: nat)
    requires k in PutAll(map[], kvs)
    ensures j < |kvs| && kvs[j] == (k, PutAll(map[], kvs)[k])
  {
    var r := PutAll(map[], kvs);
    assert k in KeysOf(kvs);
    var i :| 0 <= i < |kvs| && kvs[i].0 == k;
    j := LastIndexOf(kvs, k, i);
  }

  /** The position of the last write to `k` at or after `j`. */
  lemma {:induction false} LastIndexOf(kvs: seq<(string, string)>, k: string, j: nat) returns (last: nat)
    requires j < |kvs| && kvs[j].0 == k
    ensures LastWrite(kvs, last) && kvs[last].0 == k
    decreases |kvs| - j
  {
    if forall i :: j < i < |kvs| ==> kvs[i].0 != k {
      last := j;
    } else {
      var i :| j < i < |kvs| && kvs[i].0 == k;
      last := LastIndexOf(kvs, k, i);
    }
  }

  /** `parse` on a readable document: a fresh node at `path` filled by every
      extraction rule, with no links yet and no property cache. */
  function Extract(doc: XmlNode, path: string): (r: Node)
    requires Readable(doc)
    ensures r.path == path && r.parent.None? && r.aggregatorPoms == [] && r.childrenPoms == []
    ensures r.properties.None?
    ensures NoDups(r.repositoryUrls) && Central in r.repositoryUrls
    ensures forall k :: 0 <= k < |r.dependencies| ==> !SelfReferencing(r.dependencies[k])
  {
    Fresh(path).(
      packaging := Packaging(doc),
      groupId := Coordinate(doc, "groupId"),
      artifactId := Coordinate(doc, "artifactId"),
      version := Coordinate(doc, "version"),
      parentGroupId := ParentCoordinate(doc, "groupId"),
      parentArtifactId := ParentCoordinate(doc, "artifactId"),
      parentVersion := ParentCoordinate(doc, "version"),
      rawProperties := Properties(doc),
      modules := Modules(doc),
      dependencies := ExtractDependencies(doc),
      testConfigurations := TestConfigurations(doc),
      repositoryUrls := RepositoryUrls(doc))
  }
}
