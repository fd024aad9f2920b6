/** A three-descriptor repository traced through inheritance linking and
    dependency resolution: an aggregator `root` with modules `base` and
    `app`, where `app` declares `base` as its parent. */
module Scenario {
  import opened Collections
  import opened Strings
  import opened Dependencies
  import opened Poms
  import opened Inheritance
  import opened Resolution
  import Interpolation

  function Root(): Node
  {
    Fresh("pom.xml").(groupId := "g", artifactId := "root", version := "1", packaging := "pom",
                      modules := ["base", "app"], rawProperties := map["rev" := "1.0"], aggregatorPoms := [1, 2])
  }

  function Base(): Node
  {
    Fresh("base/pom.xml").(groupId := "g", artifactId := "base", version := "1",
                           parentGroupId := "g", parentArtifactId := "root", parentVersion := "1",
                           rawProperties := map["rev" := "2.0"], parent := Some(0))
  }

  function App(): Node
  {
    Fresh("app/pom.xml").(groupId := "g", artifactId := "app", version := "1",
                          parentGroupId := "g", parentArtifactId := "base", parentVersion := "1",
                          dependencies := [Dependency("x", "y", "${rev}")], parent := Some(0))
  }

  /** A hand-built arena in the shape aggregation gives: both modules are
      listed under `root` and still point at it as parent. */
  function Aggregated(): Arena
  {
    [Root(), Base(), App()]
  }

  /** Who declares whom as parent, and which nodes have a parent. */
  lemma Facts()
    ensures !Matches(Aggregated(), 0, 2) && Matches(Aggregated(), 1, 2) && !Matches(Aggregated(), 2, 2)
    ensures Matches(Aggregated(), 0, 1) && !Matches(Aggregated(), 1, 1) && !Matches(Aggregated(), 2, 1)
    ensures HasParent(Aggregated(), 1) && HasParent(Aggregated(), 2) && !HasParent(Aggregated(), 0)
  {
    assert "root" != "base" && "app" != "base" && "base" != "root" && "app" != "root";
  }

  /** The last listed node matching `c` when exactly `m` matches. */
  lemma OnlyMatch(a: Arena, c: nat, m: nat)
    requires |a| == 3 && c < 3 && m < 3
    requires forall p :: 0 <= p < 3 ==> (Matches(a, p, c) <==> p == m)
    ensures LastMatch(a, [0, 1, 2], c) == Some(m)
  {
    var ps: seq<nat> := [0, 1, 2];
    assert Matches(a, ps[m], c);
    var r := LastMatch(a, ps, c);
    if r.Some? {
      var k :| 0 <= k < |ps| && ps[k] == r.value && Matches(a, ps[k], c);
    }
  }

  /** `app` is re-linked to `base`, `base` stays under `root`, `root` has
      no parent. */
  lemma LinkedParents()
    ensures var u := CreateInheritanceTree(Aggregated(), [0, 1, 2]);
      u[2].parent == Some(1) && u[1].parent == Some(0) && u[0].parent.None? && SamePayloads(u, Aggregated())
  {
    var a := Aggregated();
    var list: seq<nat> := [0, 1, 2];
    Facts();
    assert a[0].parent.None?;
    OnlyMatch(a, 2, 1);
    OnlyMatch(a, 1, 0);
    ChainLinked(a, list);
  }

  /** Linking a list that holds nodes 1 and 2, where node 2's last match is
      node 1 and node 1's is node 0, gives the chain `2 -> 1 -> 0`. */
  lemma ChainLinked(a: Arena, list: seq<nat>)
    requires |a| == 3 && a[0].parent.None? && HasParent(a, 1) && HasParent(a, 2)
    requires list == [0, 1, 2]
    requires LastMatch(a, list, 2) == Some(1) && LastMatch(a, list, 1) == Some(0)
    ensures var u := CreateInheritanceTree(a, list);
      u[2].parent == Some(1) && u[1].parent == Some(0) && u[0].parent.None? && SamePayloads(u, a)
  {
    assert NoDups(list);
    assert list[1] == 1 && list[2] == 2;
  }

  lemma AggregatedContent()
    ensures var a := Aggregated();
      |a| == 3 &&
      (forall i :: 0 <= i < 2 ==> a[i].groupId == "g" && a[i].artifactId != "" && a[i].version == "1") &&
      a[1].rawProperties == map["rev" := "2.0"] && a[2].rawProperties == map[] &&
      a[2].dependencies == [Dependency("x", "y", "${rev}")]
  {
  }

  /** Arenas with the same payloads hold the same descriptor fields. */
  lemma SameContent(u: Arena, a: Arena)
    requires SamePayloads(u, a)
    ensures forall i :: 0 <= i < |u| ==>
              u[i].groupId == a[i].groupId && u[i].artifactId == a[i].artifactId && u[i].version == a[i].version &&
              u[i].rawProperties == a[i].rawProperties && u[i].dependencies == a[i].dependencies
  {
    forall i | 0 <= i < |u|
      ensures u[i].groupId == a[i].groupId && u[i].artifactId == a[i].artifactId && u[i].version == a[i].version
      ensures u[i].rawProperties == a[i].rawProperties && u[i].dependencies == a[i].dependencies
    {
      assert Payload(u[i]) == Payload(a[i]);
    }
  }

  /** The `${rev}` of `app` resolves to `base`'s value, the nearest one up
      the inheritance chain, not to the aggregator's. */
  lemma InheritedVersionResolves()
    ensures var u := CreateInheritanceTree(Aggregated(), [0, 1, 2]);
      Grounded(u, 2) && VersionsEnd(u, 2, u[2].dependencies) &&
      ResolvedDependencies(u, 2) == [Dependency("x", "y", "2.0")]
  {
    var u := CreateInheritanceTree(Aggregated(), [0, 1, 2]);
    LinkedParents();
    SameContent(u, Aggregated());
    AggregatedContent();
    assert |u| == 3;
    assert u[2].parent == Some(1) && u[1].parent == Some(0) && u[0].parent.None?;
    assert forall i :: 0 <= i < 2 ==> u[i].groupId == "g" && u[i].artifactId != "" && u[i].version == "1";
    assert u[1].rawProperties == map["rev" := "2.0"] && u[2].rawProperties == map[];
    assert u[2].dependencies == [Dependency("x", "y", "${rev}")];
    ResolvesThroughParent(u);
  }

  /** On any three-node chain `2 -> 1 -> 0` shaped like the scenario, node
      2's `${rev}` takes node 1's value. */
  lemma ResolvesThroughParent(u: Arena)
    requires |u| == 3
    requires u[2].parent == Some(1) && u[1].parent == Some(0) && u[0].parent.None?
    requires forall i :: 0 <= i < 2 ==> u[i].groupId == "g" && u[i].artifactId != "" && u[i].version == "1"
    requires u[1].rawProperties == map["rev" := "2.0"] && u[2].rawProperties == map[]
    requires u[2].dependencies == [Dependency("x", "y", "${rev}")]
    ensures Grounded(u, 2) && VersionsEnd(u, 2, u[2].dependencies)
    ensures ResolvedDependencies(u, 2) == [Dependency("x", "y", "2.0")]
  {
    assert !HasParent(u, 0) && HasParent(u, 1) && HasParent(u, 2);
    assert ChainEnds(u, 0, 1) && ChainEnds(u, 1, 2) && ChainEnds(u, 2, 3);
    PlainValue();
    assert FindFrom(u, "rev", 1, 2) == Some("2.0");
    GroundedVersionsEnd(u, 2, u[2].dependencies);
    GroundedEnds(u, "rev", 2);
    assert FindPropertyValue(u, "rev", 2) == Some("2.0");
    RevToken("${rev}", "rev", Lookup(u, 2));
    var d := Dependency("x", "y", "${rev}");
    assert Versioned([d]) == [d];
    assert '$' in d.version;
  }

  lemma PlainValue()
    ensures !Contains("2.0", "${")
  {
    assert "2.0"[..2][0] == '2';
    assert !StartsWith("2.0", "${");
    assert !Contains("2.0"[1..], "${") by {
      assert ".0"[..2][0] == '.';
      assert !StartsWith(".0", "${");
      assert !Contains(".0"[1..], "${");
    }
  }

  lemma RevToken(s: string, name: string, lookup: string -> Option<string>)
    requires s == "${rev}" && name == "rev" && lookup(name) == Some("2.0")
    ensures Interpolation.Interpolate(s, lookup) == "2.0"
  {
    RevName(name);
    assert "${" + name + "}" == s;
    Interpolation.InterpolateSingleToken(name, "2.0", lookup);
  }

  /** `rev` is a plain property name: nothing to trim, no brace, no line
      break. */
  lemma RevName(name: string)
    requires name == "rev"
    ensures Trim(name) == name && '}' !in name
    ensures forall j :: 0 <= j < |name| ==> !Interpolation.IsLineTerminator(name[j])
  {
    assert TrimStart(name) == name;
    assert TrimEnd(name) == name;
  }
}
