/** Property lookup, `${...}` interpolation and dependency-version resolution
    of one node (`POM.findPropertyValue`, `interpolateString`,
    `getDependencies`). */
module Resolution {
  import opened Collections
  import opened Strings
  import opened Dependencies
  import opened Poms
  import Interpolation

  /** One step of the lookup walk: to the linked parent while `hasParent()`
      holds; a node without parent is where the walk would stay. */
  function Step(a: Arena, i: nat): (r: nat)
    requires i < |a|
    ensures r < |a|
  {
    if HasParent(a, i) then a[i].parent.value else i
  }

  /** The node the walk reaches after `k` steps from `i`. */
  function Up(a: Arena, i: nat, k: nat): (r: nat)
    requires i < |a|
    ensures r < |a|
    decreases k
  {
    if k == 0 then i else Up(a, Step(a, i), k - 1)
  }

  /** The loop of `findPropertyValue` stops at node `j`: its raw value is
      present and holds no `${`, or `hasParent()` is false there. */
  predicate Stops(a: Arena, name: string, j: nat)
    requires j < |a|
  {
    var v := RawProperty(a[j], name);
    (v.Some? && !Contains(v.value, "${")) || !HasParent(a, j)
  }

  /** The walk from `i` meets a node where it stops within `fuel` steps. */
  predicate StopsWithin(a: Arena, name: string, i: nat, fuel: nat)
    requires i < |a|
    decreases fuel
  {
    Stops(a, name, i) || (fuel > 0 && StopsWithin(a, name, a[i].parent.value, fuel - 1))
  }

  /** The loop of `findPropertyValue(name, node i)` terminates: the walk
      meets a stop within as many steps as there are nodes. Lemma
      `EndsExactly` shows this is the case exactly when the walk stops at
      all; on a cyclic chain that never offers a plain value the loop runs
      forever. */
  predicate Ends(a: Arena, name: string, i: nat)
    requires i < |a|
  {
    StopsWithin(a, name, i, |a|)
  }

  /** Following `hasParent()` links from `i` reaches a node without parent
      within `fuel` steps. */
  predicate ChainEnds(a: Arena, i: nat, fuel: nat)
    requires i < |a|
    decreases fuel
  {
    !HasParent(a, i) || (fuel > 0 && ChainEnds(a, a[i].parent.value, fuel - 1))
  }

  /** The parent chain from `i` is finite: it ends within as many steps as
      there are nodes. */
  predicate Grounded(a: Arena, i: nat)
    requires i < |a|
  {
    ChainEnds(a, i, |a|)
  }

  /** A finite parent chain makes the lookup of every name terminate. */
  lemma {:induction false} ChainEndsStops(a: Arena, name: string, i: nat, fuel: nat)
    requires i < |a| && ChainEnds(a, i, fuel)
    ensures StopsWithin(a, name, i, fuel)
    decreases fuel
  {
    if !Stops(a, name, i) {
      ChainEndsStops(a, name, a[i].parent.value, fuel - 1);
    }
  }

  lemma GroundedEnds(a: Arena, name: string, i: nat)
    requires i < |a| && Grounded(a, i)
    ensures Ends(a, name, i)
  {
    ChainEndsStops(a, name, i, |a|);
  }

  /** The loop of `findPropertyValue`, with the step bound made explicit. */
  function FindFrom(a: Arena, name: string, i: nat, fuel: nat): Option<string>
    requires i < |a| && StopsWithin(a, name, i, fuel)
    decreases fuel
  {
    var v := RawProperty(a[i], name);
    if (v.Some? && !Contains(v.value, "${")) || !HasParent(a, i) then v
    else FindFrom(a, name, a[i].parent.value, fuel - 1)
  }

  /** `findPropertyValue(name, node)`, where its loop terminates. A plain
      value at the starting node, or any value at a node without parent, is
      returned without looking further. */
  function FindPropertyValue(a: Arena, name: string, i: nat): (r: Option<string>)
    requires i < |a| && Ends(a, name, i)
    ensures Stops(a, name, i) ==> r == RawProperty(a[i], name)
  {
    FindFrom(a, name, i, |a|)
  }

  /** The walk from `i` stops for the first time after `k` steps. */
  ghost predicate FirstStop(a: Arena, name: string, i: nat, k: nat)
    requires i < |a|
  {
    Stops(a, name, Up(a, i, k)) && forall j :: 0 <= j < k ==> !Stops(a, name, Up(a, i, j))
  }

  /** The walk from `i` stops somewhere, however far up. */
  ghost predicate Terminates(a: Arena, name: string, i: nat)
    requires i < |a|
  {
    exists k :: Stops(a, name, Up(a, i, k))
  }

  /** If the walk first stops after `k` steps, the lookup returns the raw
      value found there, whatever it is. */
  lemma {:induction false} FindReturnsFirstStop(a: Arena, name: string, i: nat, fuel: nat, k: nat)
    requires i < |a| && StopsWithin(a, name, i, fuel)
    requires FirstStop(a, name, i, k)
    ensures FindFrom(a, name, i, fuel) == RawProperty(a[Up(a, i, k)], name)
    decreases k
  {
    if k > 0 {
      assert !Stops(a, name, Up(a, i, 0));
      var p := a[i].parent.value;
      assert Up(a, i, k) == Up(a, p, k - 1);
      forall j | 0 <= j < k - 1 ensures !Stops(a, name, Up(a, p, j)) {
        assert Up(a, i, j + 1) == Up(a, p, j);
      }
      FindReturnsFirstStop(a, name, p, fuel - 1, k - 1);
    }
  }

  /** A walk that stops within `fuel` steps has a first stop there. */
  lemma {:induction false} FirstStopExists(a: Arena, name: string, i: nat, fuel: nat) returns (k: nat)
    requires i < |a| && StopsWithin(a, name, i, fuel)
    ensures k <= fuel && FirstStop(a, name, i, k)
    decreases fuel
  {
    if Stops(a, name, i) {
      k := 0;
      assert Up(a, i, 0) == i;
    } else {
      var p := a[i].parent.value;
      var k' := FirstStopExists(a, name, p, fuel - 1);
      k := k' + 1;
      assert Up(a, i, k) == Up(a, p, k');
      forall j | 0 <= j < k ensures !Stops(a, name, Up(a, i, j)) {
        if j > 0 {
          assert Up(a, i, j) == Up(a, p, j - 1);
        }
      }
    }
  }

  /** A first stop within `fuel` steps means the walk stops within `fuel`. */
  lemma {:induction false} FirstStopWithin(a: Arena, name: string, i: nat, k: nat, fuel: nat)
    requires i < |a| && FirstStop(a, name, i, k) && k <= fuel
    ensures StopsWithin(a, name, i, fuel)
    decreases k
  {
    if k > 0 {
      assert !Stops(a, name, Up(a, i, 0));
      var p := a[i].parent.value;
      assert Up(a, i, k) == Up(a, p, k - 1);
      forall j | 0 <= j < k - 1 ensures !Stops(a, name, Up(a, p, j)) {
        assert Up(a, i, j + 1) == Up(a, p, j);
      }
      FirstStopWithin(a, name, p, k - 1, fuel - 1);
    }
  }

  /** Any stop of the walk leads to a first one no further up. */
  lemma {:induction false} LeastStop(a: Arena, name: string, i: nat, k0: nat) returns (k: nat)
    requires i < |a| && Stops(a, name, Up(a, i, k0))
    ensures k <= k0 && FirstStop(a, name, i, k)
    decreases k0
  {
    if j :| 0 <= j < k0 && Stops(a, name, Up(a, i, j)) {
      k := LeastStop(a, name, i, j);
    } else {
      k := k0;
    }
  }

  /** Walking `j` steps and then `m` more is walking `j + m` steps. */
  lemma {:induction false} UpAdd(a: Arena, i: nat, j: nat, m: nat)
    requires i < |a|
    ensures Up(a, i, j + m) == Up(a, Up(a, i, j), m)
    decreases j
  {
    if j > 0 {
      UpAdd(a, Step(a, i), j - 1, m);
    }
  }

  /** Before its first stop the walk never revisits a node: a revisit would
      repeat the walk, and the stop would have come earlier. */
  lemma FirstStopDistinct(a: Arena, name: string, i: nat, k: nat, j1: nat, j2: nat)
    requires i < |a| && FirstStop(a, name, i, k)
    requires j1 < j2 <= k
    ensures Up(a, i, j1) != Up(a, i, j2)
  {
    var m := k - j2;
    UpAdd(a, i, j1, m);
    UpAdd(a, i, j2, m);
    assert !Stops(a, name, Up(a, i, j1 + m));
    assert Up(a, Up(a, i, j1), m) != Up(a, Up(a, i, j2), m);
  }

  /** A list of distinct numbers below `n` has at most `n` elements. */
  lemma {:induction false} DistinctBelow(xs: seq<nat>, n: nat)
    requires forall j :: 0 <= j < |xs| ==> xs[j] < n
    requires forall j1, j2 :: 0 <= j1 < j2 < |xs| ==> xs[j1] != xs[j2]
    ensures |xs| <= n
    decreases n
  {
    if xs != [] {
      assert xs[0] < n;
      if j :| 0 <= j < |xs| && xs[j] == n - 1 {
        var ys := xs[..j] + xs[j + 1..];
        assert forall m :: 0 <= m < |ys| ==> ys[m] == xs[if m < j then m else m + 1];
        DistinctBelow(ys, n - 1);
      } else {
        DistinctBelow(xs, n - 1);
      }
    }
  }

  /** The walk first stops within fewer steps than there are nodes. */
  lemma FirstStopBelow(a: Arena, name: string, i: nat, k: nat)
    requires i < |a| && FirstStop(a, name, i, k)
    ensures k < |a|
  {
    var xs := seq(k + 1, j requires 0 <= j <= k => Up(a, i, j));
    forall j1, j2 | 0 <= j1 < j2 < |xs| ensures xs[j1] != xs[j2] {
      FirstStopDistinct(a, name, i, k, j1, j2);
    }
    DistinctBelow(xs, |a|);
  }

  /** The lookup loop terminates exactly when the walk stops at all. */
  lemma EndsExactly(a: Arena, name: string, i: nat)
    requires i < |a|
    ensures Ends(a, name, i) <==> Terminates(a, name, i)
  {
    if Ends(a, name, i) {
      var k := FirstStopExists(a, name, i, |a|);
    }
    if Terminates(a, name, i) {
      var k0 :| Stops(a, name, Up(a, i, k0));
      var k := LeastStop(a, name, i, k0);
      FirstStopBelow(a, name, i, k);
      FirstStopWithin(a, name, i, k, |a|);
    }
  }

  /** `findPropertyValue` returns the raw value at the nearest node up the
      parent chain where the value is present without `${` or where there is
      no parent; in the latter case that value may be absent or may still
      hold `${`. That node lies fewer hops away than there are nodes. */
  lemma NearestStop(a: Arena, name: string, i: nat) returns (k: nat)
    requires i < |a| && Ends(a, name, i)
    ensures k < |a| && FirstStop(a, name, i, k)
    ensures FindPropertyValue(a, name, i) == RawProperty(a[Up(a, i, k)], name)
  {
    k := FirstStopExists(a, name, i, |a|);
    FirstStopBelow(a, name, i, k);
    FindReturnsFirstStop(a, name, i, |a|, k);
  }

  /** The lookup handed to the interpolation of node `i`'s strings. It is
      asked only for names whose loop ends (see `LookupsEnd`), so the `None`
      for other names is never observed. */
  function Lookup(a: Arena, i: nat): string -> Option<string>
    requires i < |a|
  {
    name => if Ends(a, name, i) then FindPropertyValue(a, name, i) else None
  }

  /** The lookup of every token name of `s` against node `i` terminates, so
      `interpolateString(s, node i)` does. */
  predicate LookupsEnd(a: Arena, i: nat, s: string)
    requires i < |a|
  {
    forall k :: 0 <= k < |Interpolation.Tokens(s)| ==>
      Ends(a, Trim(Interpolation.TokenName(s, Interpolation.Tokens(s)[k])), i)
  }

  /** `interpolateString(s, node i)`: the string with its tokens replaced as
      `Interpolation.Interpolate` describes, using `findPropertyValue`. */
  function InterpolateString(a: Arena, i: nat, s: string): (r: string)
    requires i < |a| && LookupsEnd(a, i, s)
    ensures '$' !in s ==> r == s
    ensures Interpolation.DollarsOpenTokens(s) && Interpolation.PlainValues(s, Lookup(a, i)) ==>
              r == Interpolation.Render(s, Lookup(a, i))
  {
    Interpolation.Interpolate(s, Lookup(a, i))
  }

  /** The lookup asked for a token name of `s` is `findPropertyValue`. */
  lemma LookupIsFind(a: Arena, i: nat, s: string, k: nat)
    requires i < |a| && LookupsEnd(a, i, s) && k < |Interpolation.Tokens(s)|
    ensures var name := Trim(Interpolation.TokenName(s, Interpolation.Tokens(s)[k]));
      Ends(a, name, i) && Lookup(a, i)(name) == FindPropertyValue(a, name, i)
  {
  }

  /** Every version with a `$` among `deps` can be interpolated against
      node `i`. */
  predicate VersionsEnd(a: Arena, i: nat, deps: seq<Dependency>)
    requires i < |a|
  {
    forall d :: d in deps && '$' in d.version ==> LookupsEnd(a, i, d.version)
  }

  /** On a finite parent chain every dependency's version can be resolved. */
  lemma GroundedVersionsEnd(a: Arena, i: nat, deps: seq<Dependency>)
    requires i < |a| && Grounded(a, i)
    ensures VersionsEnd(a, i, deps)
  {
    forall d, k | d in deps && '$' in d.version && 0 <= k < |Interpolation.Tokens(d.version)|
      ensures Ends(a, Trim(Interpolation.TokenName(d.version, Interpolation.Tokens(d.version)[k])), i)
    {
      GroundedEnds(a, Trim(Interpolation.TokenName(d.version, Interpolation.Tokens(d.version)[k])), i);
    }
  }

  /** One dependency as `getDependencies` emits it: a version with a `$` is
      interpolated against node `i`, keeping group and artifact; any other
      dependency passes through as it is. */
  function Resolve(a: Arena, i: nat, d: Dependency): (r: Dependency)
    requires i < |a| && ('$' in d.version ==> LookupsEnd(a, i, d.version))
    ensures SameCoordinates(r, d)
    ensures '$' !in d.version ==> r == d
    ensures '$' in d.version && Interpolation.DollarsOpenTokens(d.version) &&
            Interpolation.PlainValues(d.version, Lookup(a, i)) ==>
              r.version == Interpolation.Render(d.version, Lookup(a, i))
  {
    if '$' in d.version then Dependency(d.groupId, d.artifactId, InterpolateString(a, i, d.version))
    else d
  }

  /** `x` is what `getDependencies` of node `i` emits for `raw`: with a `$`
      in the version, the same coordinates and the version interpolated
      against node `i` (whose lookups then terminate); otherwise `raw`
      itself. */
  predicate ResolvedBy(a: Arena, i: nat, raw: Dependency, x: Dependency)
    requires i < |a|
  {
    if '$' in raw.version then
      LookupsEnd(a, i, raw.version) &&
      x == Dependency(raw.groupId, raw.artifactId, InterpolateString(a, i, raw.version))
    else x == raw
  }

  lemma ResolveResolvedBy(a: Arena, i: nat, d: Dependency)
    requires i < |a| && ('$' in d.version ==> LookupsEnd(a, i, d.version))
    ensures ResolvedBy(a, i, d, Resolve(a, i, d))
  {
  }

  /** `ResolvedBy` pins down one dependency: the one `Resolve` gives. */
  lemma ResolvedByIsResolve(a: Arena, i: nat, d: Dependency, x: Dependency)
    requires i < |a| && ResolvedBy(a, i, d, x)
    ensures '$' in d.version ==> LookupsEnd(a, i, d.version)
    ensures x == Resolve(a, i, d)
  {
  }

  /** The loop of `getDependencies` over `deps`. */
  function ResolveAll(a: Arena, i: nat, deps: seq<Dependency>): (r: seq<Dependency>)
    requires i < |a| && VersionsEnd(a, i, deps)
    ensures |r| == |Versioned(deps)|
    ensures forall k :: 0 <= k < |r| ==> r[k] == Resolve(a, i, Versioned(deps)[k])
  {
    if deps == [] then []
    else
      var rest := ResolveAll(a, i, deps[1..]);
      VersionedCons(deps);
      var r := (if deps[0].version != "" then [Resolve(a, i, deps[0])] else []) + rest;
      ResolveAllCons(a, i, deps, rest, r);
      r
  }

  /** Resolving the head, when versioned, in front of the resolved tail
      resolves every versioned dependency of the list in order. */
  lemma ResolveAllCons(a: Arena, i: nat, deps: seq<Dependency>, rest: seq<Dependency>, r: seq<Dependency>)
    requires i < |a| && deps != [] && VersionsEnd(a, i, deps)
    requires Versioned(deps) == (if deps[0].version != "" then [deps[0]] else []) + Versioned(deps[1..])
    requires |rest| == |Versioned(deps[1..])|
    requires forall k :: 0 <= k < |rest| ==> rest[k] == Resolve(a, i, Versioned(deps[1..])[k])
    requires r == (if deps[0].version != "" then [Resolve(a, i, deps[0])] else []) + rest
    ensures |r| == |Versioned(deps)|
    ensures forall k :: 0 <= k < |r| ==> r[k] == Resolve(a, i, Versioned(deps)[k])
  {
    var v := Versioned(deps);
    var vt := Versioned(deps[1..]);
    if deps[0].version != "" {
      forall k | 0 <= k < |r| ensures r[k] == Resolve(a, i, v[k]) {
        if k > 0 {
          assert r[k] == rest[k - 1] && v[k] == vt[k - 1];
        }
      }
    } else {
      assert r == rest && v == vt;
    }
  }

  /** `getDependencies()` of node `i`: the raw dependencies with a non-empty
      version, in order, one output per such dependency; each keeps its group
      and artifact, one without `$` in its version is passed through
      unchanged, one with `$` gets its version interpolated against node `i`
      (never against the node that declared it). */
  function ResolvedDependencies(a: Arena, i: nat): (r: seq<Dependency>)
    requires i < |a| && VersionsEnd(a, i, a[i].dependencies)
    ensures |r| == |Versioned(a[i].dependencies)|
    ensures forall k :: 0 <= k < |r| ==> SameCoordinates(r[k], Versioned(a[i].dependencies)[k])
    ensures forall k :: 0 <= k < |r| && '$' !in Versioned(a[i].dependencies)[k].version ==>
              r[k] == Versioned(a[i].dependencies)[k]
    ensures forall k :: 0 <= k < |r| && '$' in Versioned(a[i].dependencies)[k].version ==>
              r[k].version == InterpolateString(a, i, Versioned(a[i].dependencies)[k].version)
  {
    ResolveAll(a, i, a[i].dependencies)
  }

  /** A value that still holds `${` at a node without parent is returned as
      it is: lookup is single-level. */
  lemma UnresolvedValueAtRoot()
    ensures var n := Fresh("pom.xml").(rawProperties := map["x" := "${y}"]);
      FindPropertyValue([n], "x", 0) == Some("${y}")
  {
    var n := Fresh("pom.xml").(rawProperties := map["x" := "${y}"]);
    assert !HasParent([n], 0);
  }
}
