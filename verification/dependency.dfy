/** A dependency coordinate (`Dependency.java`): group, artifact and version,
    with an identity that ignores the version. */
module Dependencies {
  import opened Collections

  /** The constructor stores the three strings verbatim. The version may be
      empty ("managed elsewhere") or hold `${...}` tokens. */
  datatype Dependency = Dependency(groupId: string, artifactId: string, version: string)

  /** `getName`: group and artifact joined by a slash. Cut at its first
      slash, a name whose group holds no slash gives back group and artifact. */
  function Name(d: Dependency): (r: string)
    ensures |r| == |d.groupId| + 1 + |d.artifactId| && r[|d.groupId|] == '/'
    ensures r[..|d.groupId|] == d.groupId && r[|d.groupId| + 1..] == d.artifactId
    ensures '/' !in d.groupId ==> forall j :: 0 <= j < |d.groupId| ==> r[j] != '/'
  {
    d.groupId + "/" + d.artifactId
  }

  /** Group and artifact agree; the version plays no part. */
  predicate SameCoordinates(d: Dependency, e: Dependency)
  {
    d.groupId == e.groupId && d.artifactId == e.artifactId
  }

  /** `equals(Object)`: false for null and for an object of another class,
      otherwise group and artifact equality. */
  function Equals(d: Dependency, o: Operand<Dependency>): (r: bool)
    ensures r <==> o.SameClass? && SameCoordinates(d, o.value)
    ensures o.SameClass? && o.value.(version := d.version) == d ==> r
  {
    match o
    case Null => false
    case OtherClass => false
    case SameClass(e) => d.groupId == e.groupId && d.artifactId == e.artifactId
  }

  /** `equals` is an equivalence on dependencies and two dependencies that
      differ only in their version are equal. */
  lemma EqualsIsEquivalence(d: Dependency, e: Dependency, f: Dependency, v: string)
    ensures Equals(d, SameClass(d))
    ensures Equals(d, SameClass(e)) <==> Equals(e, SameClass(d))
    ensures Equals(d, SameClass(e)) && Equals(e, SameClass(f)) ==> Equals(d, SameClass(f))
    ensures Equals(d, SameClass(d.(version := v)))
    ensures !Equals(d, Null) && !Equals(d, OtherClass)
  {
  }

  /** Equal dependencies have equal names, and when group ids contain no
      slash equal names mean equal dependencies: the name is then a faithful
      key for the identity `equals` implements. */
  lemma {:induction false} NameIdentifies(d: Dependency, e: Dependency)
    requires '/' !in d.groupId && '/' !in e.groupId
    ensures Name(d) == Name(e) <==> Equals(d, SameClass(e))
  {
    if Name(d) == Name(e) {
      var g, h := d.groupId, e.groupId;
      assert |g| == |h| by {
        assert Name(d)[|g|] == '/';
        assert Name(e)[|h|] == '/';
      }
      assert g == Name(d)[..|g|];
      assert h == Name(e)[..|h|];
      assert d.artifactId == Name(d)[|g| + 1..];
      assert e.artifactId == Name(e)[|h| + 1..];
    }
  }

  /** The dependencies with a non-empty version, in order: what both
      `POM.getDependencies` and `POMTree.getRawDependencies` keep. */
  function Versioned(deps: seq<Dependency>): (r: seq<Dependency>)
    ensures forall d :: d in r <==> d in deps && d.version != ""
    ensures forall d {:trigger multiset(r)[d]} :: multiset(r)[d] == if d.version != "" then multiset(deps)[d] else 0
  {
    FilterCounts(deps, HasVersion);
    Filter(deps, HasVersion)
  }

  /** The dependency carries a version. */
  predicate HasVersion(d: Dependency)
  {
    d.version != ""
  }

  /** The versioned dependencies are `deps` read at exactly its versioned
      positions, in increasing order: declaration order, repeats kept. */
  lemma VersionedInOrder(deps: seq<Dependency>)
    ensures var idx := Positions(deps, HasVersion);
      && |Versioned(deps)| == |idx|
      && (forall k :: 0 <= k < |idx| ==> idx[k] < |deps| && Versioned(deps)[k] == deps[idx[k]])
      && (forall i, j :: 0 <= i < j < |idx| ==> idx[i] < idx[j])
      && (forall j :: 0 <= j < |deps| && deps[j].version != "" ==> j in idx)
  {
    PositionsExact(deps, HasVersion);
  }

  /** The versioned dependencies of a list: its head if versioned, then
      those of its tail. */
  lemma VersionedCons(deps: seq<Dependency>)
    requires deps != []
    ensures Versioned(deps) == (if deps[0].version != "" then [deps[0]] else []) + Versioned(deps[1..])
  {
  }
}
