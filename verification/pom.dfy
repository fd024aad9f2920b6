/** One project descriptor (`POM.java`) held in an arena of nodes: the parent
    link and the two child lists are indices into the arena, so the
    aggregation tree and the inheritance tree are two graphs over the same
    node set. */
module Poms {
  import opened Collections
  import opened Strings
  import opened Dependencies

  datatype Node = Node(
    path: string,
    groupId: string,
    artifactId: string,
    version: string,
    packaging: string,
    parentGroupId: string,
    parentArtifactId: string,
    parentVersion: string,
    rawProperties: map<string, string>,
    /** The memoised filtered property map; `None` until first requested. */
    properties: Option<map<string, string>>,
    testConfigurations: map<string, string>,
    dependencies: seq<Dependency>,
    modules: seq<string>,
    repositoryUrls: seq<string>,
    /** The single `parent` link, written by both kinds of attachment. */
    parent: Option<nat>,
    aggregatorPoms: seq<nat>,
    childrenPoms: seq<nat>)

  type Arena = seq<Node>

  /** A node as `new POM()` leaves it once its path is set. */
  function Fresh(path: string): Node
  {
    Node(path, "", "", "", "", "", "", "", map[], None, map[], [], [], [], None, [], [])
  }

  /** The descriptor content of a node, without its three link fields. */
  function Payload(n: Node): Node
  {
    n.(parent := None, aggregatorPoms := [], childrenPoms := [])
  }

  /** `p.addAggregatorPom(c)`: `c`'s parent becomes `p` and `c` is appended to
      `p`'s aggregator list; nothing else changes. */
  function AddAggregatorPom(a: Arena, p: nat, c: nat): (r: Arena)
    requires p < |a| && c < |a|
    ensures |r| == |a|
    ensures r[c].parent == Some(p)
    ensures r[p].aggregatorPoms == a[p].aggregatorPoms + [c]
    ensures forall n :: 0 <= n < |a| ==>
              Payload(r[n]) == Payload(a[n]) && r[n].childrenPoms == a[n].childrenPoms
    ensures forall n :: 0 <= n < |a| && n != c ==> r[n].parent == a[n].parent
    ensures forall n :: 0 <= n < |a| && n != p ==> r[n].aggregatorPoms == a[n].aggregatorPoms
  {
    var a1 := a[c := a[c].(parent := Some(p))];
    a1[p := a1[p].(aggregatorPoms := a1[p].aggregatorPoms + [c])]
  }

  /** `p.addChildPom(c)`: `c`'s parent becomes `p` and `c` is appended to
      `p`'s inheritance-children list; nothing else changes. */
  function AddChildPom(a: Arena, p: nat, c: nat): (r: Arena)
    requires p < |a| && c < |a|
    ensures |r| == |a|
    ensures r[c].parent == Some(p)
    ensures r[p].childrenPoms == a[p].childrenPoms + [c]
    ensures forall n :: 0 <= n < |a| ==>
              Payload(r[n]) == Payload(a[n]) && r[n].aggregatorPoms == a[n].aggregatorPoms
    ensures forall n :: 0 <= n < |a| && n != c ==> r[n].parent == a[n].parent
    ensures forall n :: 0 <= n < |a| && n != p ==> r[n].childrenPoms == a[n].childrenPoms
  {
    var a1 := a[c := a[c].(parent := Some(p))];
    a1[p := a1[p].(childrenPoms := a1[p].childrenPoms + [c])]
  }

  /** `addRepositoryUrl`: a URL already in the list leaves the node as it is,
      a new one is appended at the end, and a duplicate-free list stays
      duplicate-free. */
  function AddRepositoryUrl(n: Node, url: string): (r: Node)
    ensures url in r.repositoryUrls
    ensures url in n.repositoryUrls ==> r == n
    ensures url !in n.repositoryUrls ==> r.repositoryUrls == n.repositoryUrls + [url]
    ensures r == n.(repositoryUrls := r.repositoryUrls)
    ensures NoDups(n.repositoryUrls) ==> NoDups(r.repositoryUrls)
  {
    AddUniqueIdempotent(n.repositoryUrls, url);
    n.(repositoryUrls := AddUnique(n.repositoryUrls, url))
  }

  /** Adding the same URL twice is the same as adding it once. */
  lemma AddRepositoryUrlIdempotent(n: Node, url: string)
    ensures AddRepositoryUrl(AddRepositoryUrl(n, url), url) == AddRepositoryUrl(n, url)
  {
  }

  /** `addProperty`: `HashMap.put` into the raw properties. */
  function AddProperty(n: Node, name: string, value: string): (r: Node)
    ensures RawProperty(r, name) == Some(value)
    ensures forall k :: k != name ==> RawProperty(r, k) == RawProperty(n, k)
    ensures r == n.(rawProperties := r.rawProperties)
  {
    n.(rawProperties := n.rawProperties[name := value])
  }

  /** `getRawProperty`: `None` stands for Java's `null`. */
  function RawProperty(n: Node, name: string): (r: Option<string>)
    ensures r.Some? <==> name in n.rawProperties
    ensures r.Some? ==> r.value == n.rawProperties[name]
  {
    if name in n.rawProperties then Some(n.rawProperties[name]) else None
  }

  /** The raw properties whose value holds no `${`. */
  function Filtered(raw: map<string, string>): map<string, string>
  {
    map k | k in raw && !Contains(raw[k], "${") :: raw[k]
  }

  /** The node once its property cache exists: a missing cache is built as
      the raw properties whose value holds no `${`; an existing cache is kept
      untouched. */
  function WithCache(n: Node): (r: Node)
    ensures r.properties.Some?
    ensures n.properties.Some? ==> r == n
    ensures n.properties.None? ==> r == n.(properties := r.properties)
    ensures n.properties.None? ==> forall k ::
              (k in r.properties.value <==> k in n.rawProperties && !Contains(n.rawProperties[k], "${"))
              && (k in r.properties.value ==> r.properties.value[k] == n.rawProperties[k])
  {
    if n.properties.Some? then n else n.(properties := Some(Filtered(n.rawProperties)))
  }

  /** `getProperties()` as written: the call that builds the cache returns
      the RAW map, while a call that finds the cache returns the cache. */
  function GetProperties(n: Node): (r: (Node, map<string, string>))
    ensures r.0 == WithCache(n)
    ensures n.properties.None? ==> r.1 == n.rawProperties
    ensures n.properties.Some? ==> r.1 == n.properties.value
  {
    if n.properties.Some? then (n, n.properties.value)
    else (WithCache(n), n.rawProperties)
  }

  /** The first and the second `getProperties()` disagree as soon as a raw
      value holds `${`: the first answer has the entry, the second lacks it. */
  lemma GetPropertiesInconsistent()
    ensures var n := Fresh("pom.xml").(rawProperties := map["a" := "${b}"]);
      var first := GetProperties(n);
      var second := GetProperties(first.0);
      "a" in first.1 && "a" !in second.1
  {
    var n := Fresh("pom.xml").(rawProperties := map["a" := "${b}"]);
    assert StartsWith("${b}", "${");
    assert Contains("${b}", "${");
  }

  /** `getProperties()` as the cache and `getProperty` evidently intend it:
      every call returns the filtered map. */
  function GetPropertiesCorrected(n: Node): (r: (Node, map<string, string>))
    ensures r.0 == WithCache(n) && r.1 == r.0.properties.value
  {
    var m := WithCache(n);
    (m, m.properties.value)
  }

  /** The corrected method gives the same map on every call, that map holds
      no value with `${`, and it agrees with `getProperty` name by name. */
  lemma GetPropertiesCorrectedStable(n: Node, name: string)
    requires n.properties.Some? ==> n.properties.value == Filtered(n.rawProperties)
    ensures GetPropertiesCorrected(GetPropertiesCorrected(n).0) == GetPropertiesCorrected(n)
    ensures forall k :: k in GetPropertiesCorrected(n).1 ==> !Contains(GetPropertiesCorrected(n).1[k], "${")
    ensures GetProperty(n, name).1 ==
              (if name in GetPropertiesCorrected(n).1 then Some(GetPropertiesCorrected(n).1[name]) else None)
  {
  }

  /** `getProperty(name)`: reads the filtered cache, building it first when it
      is missing. On a node whose cache was never built, a value comes back
      exactly when the raw value exists and holds no `${`. */
  function GetProperty(n: Node, name: string): (r: (Node, Option<string>))
    ensures r.0 == WithCache(n)
    ensures n.properties.None? ==>
              (r.1.Some? <==> name in n.rawProperties && !Contains(n.rawProperties[name], "${"))
              && (r.1.Some? ==> r.1.value == n.rawProperties[name])
    ensures n.properties.Some? ==>
              r.1 == (if name in n.properties.value then Some(n.properties.value[name]) else None)
  {
    var m := WithCache(n);
    var cache := m.properties.value;
    (m, if name in cache then Some(cache[name]) else None)
  }

  /** The cache is built once: asking again for any single property returns
      the same node and the same answer. */
  lemma PropertiesMemoised(n: Node, name: string, other: string)
    ensures WithCache(WithCache(n)) == WithCache(n)
    ensures GetProperty(GetProperty(n, other).0, name) == GetProperty(n, name)
  {
  }

  /** `hasParent()`: a parent node is linked and that node's groupId,
      artifactId and version are all non-empty. The stored
      `parentGroupId`/`parentArtifactId`/`parentVersion` strings play no
      part. */
  predicate HasParent(a: Arena, i: nat)
    requires i < |a|
    ensures HasParent(a, i) ==> a[i].parent.Some? && a[i].parent.value < |a|
    ensures a[i].parent.None? ==> !HasParent(a, i)
  {
    && a[i].parent.Some?
    && a[i].parent.value < |a|
    && a[a[i].parent.value].groupId != ""
    && a[a[i].parent.value].artifactId != ""
    && a[a[i].parent.value].version != ""
  }

  /** Rewriting a node's stored parent coordinates never changes
      `hasParent`, and a node whose stored parent coordinates are all set but
      which has no linked parent has no parent. */
  lemma HasParentIgnoresStoredCoordinates(a: Arena, i: nat, g: string, art: string, v: string)
    requires i < |a|
    ensures HasParent(a[i := a[i].(parentGroupId := g, parentArtifactId := art, parentVersion := v)], i)
            == HasParent(a, i)
    ensures !HasParent(a[i := a[i].(parentGroupId := g, parentArtifactId := art, parentVersion := v, parent := None)], i)
  {
  }

  /** `equals(Object)`: false for null and for another class, otherwise
      groupId and artifactId equality; the version is ignored. */
  function SameModule(n: Node, o: Operand<Node>): (r: bool)
    ensures r <==> o.SameClass? && n.groupId == o.value.groupId && n.artifactId == o.value.artifactId
  {
    match o
    case Null => false
    case OtherClass => false
    case SameClass(m) => n.groupId == m.groupId && n.artifactId == m.artifactId
  }

  /** `equals` on descriptors is an equivalence that ignores the version. */
  lemma SameModuleIsEquivalence(n: Node, m: Node, k: Node, v: string)
    ensures SameModule(n, SameClass(n))
    ensures SameModule(n, SameClass(m)) <==> SameModule(m, SameClass(n))
    ensures SameModule(n, SameClass(m)) && SameModule(m, SameClass(k)) ==> SameModule(n, SameClass(k))
    ensures SameModule(n, SameClass(n.(version := v)))
    ensures !SameModule(n, Null) && !SameModule(n, OtherClass)
  {
  }
}
