/** The repository-wide tree (`POMTree`): building it once from the root
    descriptor, and the queries that walk its node list. */
module PomTrees {
  import opened Collections
  import opened Strings
  import opened Dependencies
  import opened Poms
  import opened Extraction
  import opened Aggregation
  import opened Inheritance
  import opened Resolution

  /** A tree for repository `repoDir`. Before the build the arena and the
      node list are empty and there is no root; after it the root is node 0
      and the node list holds every node in pre-order. */
  datatype PomTree = PomTree(repoDir: string, arena: Arena, pomList: seq<nat>, root: Option<nat>)

  ghost predicate Valid(t: PomTree)
  {
    InArena(t.arena, t.pomList) && NoDups(t.pomList) &&
    (t.root.None? ==> t.arena == [] && t.pomList == []) &&
    (t.root.Some? ==> t.root.value == 0 && |t.arena| > 0)
  }

  /** `new POMTree(repoDir)`. */
  function New(repoDir: string): (r: PomTree)
    ensures Valid(r) && r.root.None? && r.repoDir == repoDir
  {
    PomTree(repoDir, [], [], None)
  }

  /** `createAggregatorTree(path)` on the workspace: the root at node 0. */
  function CreateAggregatorTree(w: Workspace, path: string, fuel: nat): (r: Result<Arena, BuildError>)
    ensures r.Ok? ==> |r.value| > 0 && PreOrder(r.value, 0) == Range(0, |r.value|)
  {
    var r := BuildTree(ParserOf(w), w.moduleFile, [], path, fuel);
    if r.Ok? then
      ParserOfFresh(w);
      BuildTreeShape(ParserOf(w), w.moduleFile, [], path, fuel);
      r
    else r
  }

  /** `createPomTree()`: a tree already built is returned as it is; otherwise
      a missing root descriptor is an error, and a successful build records
      the aggregation tree, its pre-order node list and the inheritance links
      drawn over that list. A failed build leaves the tree unbuilt. */
  function CreatePomTree(t: PomTree, w: Workspace, fuel: nat): (r: Result<PomTree, BuildError>)
    requires Valid(t)
    ensures t.root.Some? ==> r == Ok(t)
    ensures t.root.None? && w.rootFile(t.repoDir) !in w.present ==> r == Err(MissingRoot(w.rootFile(t.repoDir)))
    ensures r.Ok? ==> Valid(r.value) && r.value.repoDir == t.repoDir && r.value.root == Some(0)
    ensures r.Ok? && t.root.None? ==> r.value.pomList == Range(0, |r.value.arena|)
  {
    if t.root.Some? then Ok(t)
    else
      var path := w.rootFile(t.repoDir);
      if path !in w.present then Err(MissingRoot(path))
      else
        match CreateAggregatorTree(w, path, fuel)
        case Err(e) => Err(e)
        case Ok(b) => Ok(Linked(t, b))
  }

  /** The tree recorded after a successful aggregation `b`: the pre-order
      list appended to the (empty) node list, and the arena with the
      inheritance links drawn over it. */
  function Linked(t: PomTree, b: Arena): (r: PomTree)
    requires Valid(t) && t.root.None?
    requires |b| > 0 && PreOrder(b, 0) == Range(0, |b|)
    ensures Valid(r) && r.repoDir == t.repoDir && r.root == Some(0)
    ensures r.pomList == Range(0, |r.arena|) && |r.arena| == |b|
    ensures r.arena == CreateInheritanceTree(b, r.pomList)
  {
    var list := t.pomList + PreOrder(b, 0);
    assert list == Range(0, |b|);
    RangeExactlyOnce(0, |b|);
    var linked := CreateInheritanceTree(b, list);
    PomTree(t.repoDir, linked, list, Some(0))
  }

  /** Building twice is building once. */
  lemma CreatePomTreeIdempotent(t: PomTree, w: Workspace, fuel: nat, fuel': nat)
    requires Valid(t) && CreatePomTree(t, w, fuel).Ok?
    ensures CreatePomTree(CreatePomTree(t, w, fuel).value, w, fuel') == CreatePomTree(t, w, fuel)
  {
  }

  /** The root of the aggregation tree is the root descriptor as parsed. */
  lemma AggregatorRoot(w: Workspace, path: string, fuel: nat)
    requires CreateAggregatorTree(w, path, fuel).Ok?
    ensures var b := CreateAggregatorTree(w, path, fuel).value;
      path in w.documents && Payload(b[0]) == Payload(Extract(w.documents[path], path)) && b[0].path == path
  {
  }

  /** A fresh build is the aggregation tree of the root descriptor, linked
      over its pre-order list. */
  lemma BuiltArena(t: PomTree, w: Workspace, fuel: nat)
    requires Valid(t) && t.root.None? && CreatePomTree(t, w, fuel).Ok?
    ensures var b := CreateAggregatorTree(w, w.rootFile(t.repoDir), fuel);
      b.Ok? && CreatePomTree(t, w, fuel) == Ok(Linked(t, b.value))
  {
  }

  /** Every node of a fresh build keeps the content it was parsed with, and
      node 0 is the root descriptor as parsed. */
  lemma BuiltFromRoot(t: PomTree, w: Workspace, fuel: nat)
    requires Valid(t) && t.root.None? && CreatePomTree(t, w, fuel).Ok?
    ensures var path := w.rootFile(t.repoDir);
      var b := CreateAggregatorTree(w, path, fuel);
      var u := CreatePomTree(t, w, fuel).value;
      b.Ok? && SamePayloads(u.arena, b.value) && u.arena[0].path == path &&
      Payload(u.arena[0]) == Payload(Extract(w.documents[path], path))
  {
    var path := w.rootFile(t.repoDir);
    BuiltArena(t, w, fuel);
    AggregatorRoot(w, path, fuel);
    var b := CreateAggregatorTree(w, path, fuel).value;
    var u := Linked(t, b);
    LinkedContent(t, b);
    assert Payload(u.arena[0]) == Payload(b[0]);
  }

  /** Linking keeps every node's content and modules and moves a node with a
      parent to the last listed node matching its declared coordinates. */
  lemma LinkedContent(t: PomTree, b: Arena)
    requires Valid(t) && t.root.None?
    requires |b| > 0 && PreOrder(b, 0) == Range(0, |b|)
    ensures var u := Linked(t, b);
      SamePayloads(u.arena, b) &&
      (forall n :: 0 <= n < |b| ==> u.arena[n].aggregatorPoms == b[n].aggregatorPoms) &&
      (forall c :: 0 <= c < |b| ==>
         u.arena[c].parent == (if HasParent(b, c) && LastMatch(b, u.pomList, c).Some?
                               then LastMatch(b, u.pomList, c) else b[c].parent))
  {
    RangeExactlyOnce(0, |b|);
  }

  /** Every node's parse-time dependencies with a non-empty version, node by
      node in list order. */
  function RawOf(a: Arena, list: seq<nat>): (r: seq<Dependency>)
    requires InArena(a, list)
    ensures forall d :: d in r ==> d.version != ""
  {
    if list == [] then [] else Versioned(a[list[0]].dependencies) + RawOf(a, list[1..])
  }

  /** `getRawDependencies()`: the versioned dependencies of the listed nodes,
      where the `p`-th one is entry `Origins(...)[p].1` of node
      `pomList[Origins(...)[p].0]`; by `OriginsEnumerate` that index runs
      through every entry of every listed node exactly once, in list order
      and then in declaration order. */
  function RawDependencies(t: PomTree): (r: seq<Dependency>)
    requires Valid(t)
    ensures t.root.None? ==> r == []
    ensures |r| == |Origins(t.arena, t.pomList)|
    ensures forall p :: 0 <= p < |r| ==>
              Origins(t.arena, t.pomList)[p].0 < |t.pomList| &&
              Origins(t.arena, t.pomList)[p].1 < |Versioned(t.arena[t.pomList[Origins(t.arena, t.pomList)[p].0]].dependencies)| &&
              r[p] == Versioned(t.arena[t.pomList[Origins(t.arena, t.pomList)[p].0]].dependencies)[Origins(t.arena, t.pomList)[p].1]
  {
    OriginsValid(t.arena, t.pomList);
    RawOf(t.arena, t.pomList)
  }

  /** How many versioned dependencies each listed node declares. */
  function Counts(a: Arena, list: seq<nat>): (r: seq<nat>)
    requires InArena(a, list)
    ensures |r| == |list|
    ensures forall k :: 0 <= k < |list| ==> r[k] == |Versioned(a[list[k]].dependencies)|
  {
    seq(|list|, k requires 0 <= k < |list| => |Versioned(a[list[k]].dependencies)|)
  }

  lemma CountsTail(a: Arena, list: seq<nat>)
    requires InArena(a, list) && list != []
    ensures Counts(a, list)[0] == |Versioned(a[list[0]].dependencies)|
    ensures Counts(a, list)[1..] == Counts(a, list[1..])
  {
    assert forall k :: 0 <= k < |list| - 1 ==> list[1..][k] == list[k + 1];
  }

  /** The pairs `(k, j)` with `j < cs[k]`, by `k` and then by `j`. */
  function Enumerate(cs: seq<nat>): seq<(nat, nat)>
    decreases |cs|
  {
    if cs == [] then [] else Firsts(cs[0]) + Lift(Enumerate(cs[1..]))
  }

  /** The first `n` entries of the first node. */
  function Firsts(n: nat): (r: seq<(nat, nat)>)
    ensures |r| == n && forall j :: 0 <= j < n ==> r[j] == (0, j)
  {
    seq(n, j requires 0 <= j < n => (0, j))
  }

  /** Pairs of the tail, seen from the whole sequence. */
  function Lift(os: seq<(nat, nat)>): (r: seq<(nat, nat)>)
    ensures |r| == |os| && forall p :: 0 <= p < |os| ==> r[p] == (os[p].0 + 1, os[p].1)
  {
    seq(|os|, p requires 0 <= p < |os| => (os[p].0 + 1, os[p].1))
  }

  /** Where the `p`-th raw dependency of the nodes in `list` comes from: the
      position in `list` of the node declaring it, and its position among
      that node's versioned dependencies. */
  function Origins(a: Arena, list: seq<nat>): seq<(nat, nat)>
    requires InArena(a, list)
  {
    Enumerate(Counts(a, list))
  }

  lemma OriginsTail(a: Arena, list: seq<nat>)
    requires InArena(a, list) && list != []
    ensures Origins(a, list) == Firsts(|Versioned(a[list[0]].dependencies)|) + Lift(Origins(a, list[1..]))
  {
    CountsTail(a, list);
  }

  /** Each origin names an entry of a listed node, and that entry is the raw
      dependency at the origin's position. */
  lemma {:induction false} OriginsValid(a: Arena, list: seq<nat>)
    requires InArena(a, list)
    ensures |Origins(a, list)| == |RawOf(a, list)|
    ensures forall p :: 0 <= p < |Origins(a, list)| ==>
              Origins(a, list)[p].0 < |list| &&
              Origins(a, list)[p].1 < |Versioned(a[list[Origins(a, list)[p].0]].dependencies)| &&
              RawOf(a, list)[p] == Versioned(a[list[Origins(a, list)[p].0]].dependencies)[Origins(a, list)[p].1]
    decreases |list|
  {
    if list != [] {
      OriginsValid(a, list[1..]);
      OriginsTail(a, list);
      OriginsCons(a, list, Origins(a, list[1..]), Origins(a, list));
    }
  }

  lemma OriginsCons(a: Arena, list: seq<nat>, rest: seq<(nat, nat)>, r: seq<(nat, nat)>)
    requires InArena(a, list) && list != []
    requires |rest| == |RawOf(a, list[1..])|
    requires forall p :: 0 <= p < |rest| ==>
               rest[p].0 < |list[1..]| && rest[p].1 < |Versioned(a[list[1..][rest[p].0]].dependencies)| &&
               RawOf(a, list[1..])[p] == Versioned(a[list[1..][rest[p].0]].dependencies)[rest[p].1]
    requires r == Firsts(|Versioned(a[list[0]].dependencies)|) + Lift(rest)
    ensures |r| == |RawOf(a, list)|
    ensures forall p :: 0 <= p < |r| ==>
              r[p].0 < |list| && r[p].1 < |Versioned(a[list[r[p].0]].dependencies)| &&
              RawOf(a, list)[p] == Versioned(a[list[r[p].0]].dependencies)[r[p].1]
  {
    var head := Versioned(a[list[0]].dependencies);
    var n := |head|;
    assert RawOf(a, list) == head + RawOf(a, list[1..]);
    forall p | 0 <= p < |r|
      ensures r[p].0 < |list| && r[p].1 < |Versioned(a[list[r[p].0]].dependencies)|
      ensures RawOf(a, list)[p] == Versioned(a[list[r[p].0]].dependencies)[r[p].1]
    {
      if p >= n {
        assert r[p] == (rest[p - n].0 + 1, rest[p - n].1);
        assert list[1..][rest[p - n].0] == list[r[p].0];
      }
    }
  }

  /** Origin `x` comes before origin `y`: an earlier node, or the same node
      and an earlier entry. */
  predicate Before(x: (nat, nat), y: (nat, nat))
  {
    x.0 < y.0 || (x.0 == y.0 && x.1 < y.1)
  }

  /** The origins enumerate every versioned entry of every listed node
      exactly once, in list order and then in declaration order. */
  lemma OriginsEnumerate(a: Arena, list: seq<nat>)
    requires InArena(a, list)
    ensures forall p, q :: 0 <= p < q < |Origins(a, list)| ==> Before(Origins(a, list)[p], Origins(a, list)[q])
    ensures forall k, j :: 0 <= k < |list| && 0 <= j < |Versioned(a[list[k]].dependencies)| ==>
              (k, j) in Origins(a, list)
  {
    EnumerateOrdered(Counts(a, list));
    EnumerateCover(Counts(a, list));
  }

  lemma {:induction false} EnumerateOrdered(cs: seq<nat>)
    ensures forall p, q :: 0 <= p < q < |Enumerate(cs)| ==> Before(Enumerate(cs)[p], Enumerate(cs)[q])
    decreases |cs|
  {
    if cs != [] {
      EnumerateOrdered(cs[1..]);
      LiftOrdered(cs[0], Enumerate(cs[1..]));
    }
  }

  /** Putting the first node's entries in front of the lifted pairs of the
      rest keeps them in order. */
  lemma LiftOrdered(n: nat, rest: seq<(nat, nat)>)
    requires forall p, q :: 0 <= p < q < |rest| ==> Before(rest[p], rest[q])
    ensures var r := Firsts(n) + Lift(rest);
      forall p, q :: 0 <= p < q < |r| ==> Before(r[p], r[q])
  {
    var r := Firsts(n) + Lift(rest);
    forall p, q | 0 <= p < q < |r| ensures Before(r[p], r[q]) {
      if p >= n {
        assert Before(rest[p - n], rest[q - n]);
      }
    }
  }

  lemma {:induction false} EnumerateCover(cs: seq<nat>)
    ensures forall k, j :: 0 <= k < |cs| && 0 <= j < cs[k] ==> (k, j) in Enumerate(cs)
    decreases |cs|
  {
    if cs != [] {
      EnumerateCover(cs[1..]);
      var rest := Enumerate(cs[1..]);
      forall k, j | 0 <= k < |cs| && 0 <= j < cs[k]
        ensures (k, j) in Enumerate(cs)
      {
        if k == 0 {
          LiftIn(cs[0], rest, (0, j));
        } else {
          assert cs[1..][k - 1] == cs[k];
          LiftIn(cs[0], rest, (k - 1, j));
        }
      }
    }
  }

  /** An entry of the first node, or a lifted pair of the rest, is among
      the pairs of the whole sequence. */
  lemma LiftIn(n: nat, rest: seq<(nat, nat)>, x: (nat, nat))
    requires (x.0 == 0 && x.1 < n) || x in rest
    ensures x.0 == 0 && x.1 < n ==> x in Firsts(n) + Lift(rest)
    ensures x in rest ==> (x.0 + 1, x.1) in Firsts(n) + Lift(rest)
  {
    var r := Firsts(n) + Lift(rest);
    if x.0 == 0 && x.1 < n {
      assert r[x.1] == x;
    }
    if x in rest {
      var p :| 0 <= p < |rest| && rest[p] == x;
      assert r[n + p] == (x.0 + 1, x.1);
    }
  }

  /** `n` copies of `x`. */
  function Repeat(x: nat, n: nat): (r: seq<nat>)
    ensures |r| == n && forall j :: 0 <= j < n ==> r[j] == x
  {
    seq(n, _ => x)
  }

  /** Each `xs[k]` repeated `cs[k]` times, in order. */
  function Spread(xs: seq<nat>, cs: seq<nat>): seq<nat>
    requires |xs| == |cs|
    decreases |cs|
  {
    if cs == [] then [] else Repeat(xs[0], cs[0]) + Spread(xs[1..], cs[1..])
  }

  /** Position `p` of the spread holds the element the `p`-th pair names. */
  lemma {:induction false} SpreadEnumerate(xs: seq<nat>, cs: seq<nat>)
    requires |xs| == |cs|
    ensures |Spread(xs, cs)| == |Enumerate(cs)|
    ensures forall p :: 0 <= p < |Enumerate(cs)| ==>
              Enumerate(cs)[p].0 < |xs| && Spread(xs, cs)[p] == xs[Enumerate(cs)[p].0]
    decreases |cs|
  {
    if cs != [] {
      SpreadEnumerate(xs[1..], cs[1..]);
      var n := cs[0];
      var rest := Enumerate(cs[1..]);
      forall p | n <= p < |Enumerate(cs)|
        ensures Enumerate(cs)[p].0 < |xs| && Spread(xs, cs)[p] == xs[Enumerate(cs)[p].0]
      {
        assert Enumerate(cs)[p] == (rest[p - n].0 + 1, rest[p - n].1);
        assert Spread(xs, cs)[p] == Spread(xs[1..], cs[1..])[p - n];
        assert xs[1..][rest[p - n].0] == xs[rest[p - n].0 + 1];
      }
    }
  }

  /** The node that declares each raw dependency of the nodes in `list`. */
  function Owners(a: Arena, list: seq<nat>): (r: seq<nat>)
    requires InArena(a, list)
    ensures |r| == |RawOf(a, list)|
    ensures forall p :: 0 <= p < |r| ==> r[p] < |a|
  {
    OriginsValid(a, list);
    SpreadEnumerate(list, Counts(a, list));
    Spread(list, Counts(a, list))
  }

  /** The owner of the `p`-th raw dependency is the listed node its origin
      names. */
  lemma OwnersOrigins(a: Arena, list: seq<nat>)
    requires InArena(a, list)
    ensures |Owners(a, list)| == |Origins(a, list)|
    ensures forall p :: 0 <= p < |Owners(a, list)| ==>
              Origins(a, list)[p].0 < |list| && Owners(a, list)[p] == list[Origins(a, list)[p].0]
  {
    SpreadEnumerate(list, Counts(a, list));
  }

  /** The first node's raw dependencies are owned by it; the rest by the
      owners of the tail. */
  lemma OwnersTail(a: Arena, list: seq<nat>)
    requires InArena(a, list) && list != []
    ensures Owners(a, list) == Repeat(list[0], |Versioned(a[list[0]].dependencies)|) + Owners(a, list[1..])
  {
    CountsTail(a, list);
  }

  /** A raw dependency of the tree is exactly a versioned dependency some
      listed node declared. */
  lemma {:induction false} RawOfMembers(a: Arena, list: seq<nat>, d: Dependency)
    requires InArena(a, list)
    ensures d in RawOf(a, list) <==>
            d.version != "" && exists k :: 0 <= k < |list| && d in a[list[k]].dependencies
    decreases |list|
  {
    if list != [] {
      RawOfMembers(a, list[1..], d);
      DeclaredCons(a, list, d);
      assert RawOf(a, list) == Versioned(a[list[0]].dependencies) + RawOf(a, list[1..]);
    }
  }

  /** Some node of a non-empty list declares `d` exactly when its first node
      or one of the rest does. */
  lemma DeclaredCons(a: Arena, list: seq<nat>, d: Dependency)
    requires InArena(a, list) && list != []
    ensures (exists k :: 0 <= k < |list| && d in a[list[k]].dependencies) <==>
            d in a[list[0]].dependencies || exists k :: 0 <= k < |list[1..]| && d in a[list[1..][k]].dependencies
  {
    if exists k :: 1 <= k < |list| && d in a[list[k]].dependencies {
      var k :| 1 <= k < |list| && d in a[list[k]].dependencies;
      assert list[1..][k - 1] == list[k];
    }
    if exists k :: 0 <= k < |list[1..]| && d in a[list[1..][k]].dependencies {
      var k :| 0 <= k < |list[1..]| && d in a[list[1..][k]].dependencies;
      assert list[k + 1] == list[1..][k];
    }
  }

  /** Every listed node's `getDependencies()` terminates: each version with
      a `$` can be interpolated against the node that declares it. */
  predicate ListResolves(a: Arena, list: seq<nat>)
    requires InArena(a, list)
  {
    forall k :: 0 <= k < |list| ==> VersionsEnd(a, list[k], a[list[k]].dependencies)
  }

  /** `getDependencies()` of the tree terminates. */
  predicate AllResolve(t: PomTree)
    requires Valid(t)
  {
    ListResolves(t.arena, t.pomList)
  }

  function ResolvedOf(a: Arena, list: seq<nat>): (r: seq<Dependency>)
    requires InArena(a, list)
    requires ListResolves(a, list)
  {
    if list == [] then [] else ResolvedDependencies(a, list[0]) + ResolvedOf(a, list[1..])
  }

  /** `getDependencies()`: every listed node's `getDependencies()`, in order.
      The `p`-th result is the `p`-th raw dependency resolved against the
      node that declares it. */
  function TreeDependencies(t: PomTree): (r: seq<Dependency>)
    requires Valid(t) && AllResolve(t)
    ensures t.root.None? ==> r == []
    ensures Corresponds(r, RawDependencies(t))
    ensures forall p :: 0 <= p < |r| ==>
              ResolvedBy(t.arena, Owners(t.arena, t.pomList)[p], RawDependencies(t)[p], r[p])
  {
    ResolvedMatchesRaw(t.arena, t.pomList);
    ResolvedByOwners(t.arena, t.pomList);
    ResolvedOf(t.arena, t.pomList)
  }

  /** Each resolved dependency is its raw counterpart resolved against the
      node that declares it. */
  lemma {:induction false} ResolvedByOwners(a: Arena, list: seq<nat>)
    requires InArena(a, list) && ListResolves(a, list)
    ensures |ResolvedOf(a, list)| == |RawOf(a, list)|
    ensures forall p :: 0 <= p < |ResolvedOf(a, list)| ==>
              ResolvedBy(a, Owners(a, list)[p], RawOf(a, list)[p], ResolvedOf(a, list)[p])
    decreases |list|
  {
    ResolvedMatchesRaw(a, list);
    if list != [] {
      ResolvedByOwners(a, list[1..]);
      HeadResolvedBy(a, list);
      var P := (o: nat, y: Dependency, x: Dependency) => o < |a| && ResolvedBy(a, o, y, x);
      PointwiseConcat(P, Repeat(list[0], |Versioned(a[list[0]].dependencies)|), Versioned(a[list[0]].dependencies),
                      ResolvedDependencies(a, list[0]), Owners(a, list[1..]), RawOf(a, list[1..]), ResolvedOf(a, list[1..]));
      OwnersTail(a, list);
    }
  }

  /** The first node's dependencies are resolved against it. */
  lemma HeadResolvedBy(a: Arena, list: seq<nat>)
    requires InArena(a, list) && list != [] && VersionsEnd(a, list[0], a[list[0]].dependencies)
    ensures forall p :: 0 <= p < |ResolvedDependencies(a, list[0])| ==>
              ResolvedBy(a, list[0], Versioned(a[list[0]].dependencies)[p], ResolvedDependencies(a, list[0])[p])
  {
    var v := Versioned(a[list[0]].dependencies);
    forall p | 0 <= p < |ResolvedDependencies(a, list[0])|
      ensures ResolvedBy(a, list[0], v[p], ResolvedDependencies(a, list[0])[p])
    {
      assert v[p] in v;
      ResolveResolvedBy(a, list[0], v[p]);
    }
  }

  /** A relation holding position by position on two triples of sequences
      holds on their concatenations. */
  lemma PointwiseConcat<A, B, C>(P: (A, B, C) -> bool, o1: seq<A>, y1: seq<B>, x1: seq<C>,
                                 o2: seq<A>, y2: seq<B>, x2: seq<C>)
    requires |o1| == |y1| == |x1| && |o2| == |y2| == |x2|
    requires forall p :: 0 <= p < |o1| ==> P(o1[p], y1[p], x1[p])
    requires forall p :: 0 <= p < |o2| ==> P(o2[p], y2[p], x2[p])
    ensures forall p :: 0 <= p < |o1| + |o2| ==> P((o1 + o2)[p], (y1 + y2)[p], (x1 + x2)[p])
  {
    forall p | |o1| <= p < |o1| + |o2| ensures P((o1 + o2)[p], (y1 + y2)[p], (x1 + x2)[p]) {
      assert (o1 + o2)[p] == o2[p - |o1|] && (y1 + y2)[p] == y2[p - |o1|] && (x1 + x2)[p] == x2[p - |o1|];
    }
  }


  /** Two dependency lists match position by position: the same coordinates
      everywhere, and the same dependency where the second has no `$` in its
      version. */
  ghost predicate Corresponds(xs: seq<Dependency>, ys: seq<Dependency>)
  {
    |xs| == |ys| &&
    forall k :: 0 <= k < |xs| ==> SameCoordinates(xs[k], ys[k]) && ('$' !in ys[k].version ==> xs[k] == ys[k])
  }

  lemma CorrespondsConcat(x1: seq<Dependency>, y1: seq<Dependency>, x2: seq<Dependency>, y2: seq<Dependency>)
    requires Corresponds(x1, y1) && Corresponds(x2, y2)
    ensures Corresponds(x1 + x2, y1 + y2)
  {
    forall k | 0 <= k < |x1| + |x2|
      ensures SameCoordinates((x1 + x2)[k], (y1 + y2)[k])
      ensures '$' !in (y1 + y2)[k].version ==> (x1 + x2)[k] == (y1 + y2)[k]
    {
      if k >= |x1| {
        assert (x1 + x2)[k] == x2[k - |x1|] && (y1 + y2)[k] == y2[k - |x1|];
      }
    }
  }

  /** The resolved dependencies of the tree line up with its raw ones. */
  lemma {:induction false} ResolvedMatchesRaw(a: Arena, list: seq<nat>)
    requires InArena(a, list)
    requires ListResolves(a, list)
    ensures Corresponds(ResolvedOf(a, list), RawOf(a, list))
    decreases |list|
  {
    if list != [] {
      ResolvedMatchesRaw(a, list[1..]);
      CorrespondsConcat(ResolvedDependencies(a, list[0]), Versioned(a[list[0]].dependencies),
                        ResolvedOf(a, list[1..]), RawOf(a, list[1..]));
    }
  }

  /** A version the build tool resolves at build time. */
  predicate IsDynamic(d: Dependency)
  {
    d.version == "RELEASE" || d.version == "LATEST" || EndsWith(d.version, "SNAPSHOT")
  }

  /** `getDynamicDependencies()`: the resolved dependencies whose version is
      `RELEASE`, `LATEST` or ends with `SNAPSHOT`, in order. */
  function DynamicDependencies(t: PomTree): (r: seq<Dependency>)
    requires Valid(t) && AllResolve(t)
    ensures forall k :: 0 <= k < |r| ==> IsDynamic(r[k])
    ensures forall d :: d in r <==> d in TreeDependencies(t) && IsDynamic(d)
    ensures forall d :: multiset(r)[d] == if IsDynamic(d) then multiset(TreeDependencies(t))[d] else 0
  {
    FilterCounts(TreeDependencies(t), IsDynamic);
    Filter(TreeDependencies(t), IsDynamic)
  }

  /** The three dynamic forms, and a fixed release that is not one. */
  lemma DynamicVersions()
    ensures IsDynamic(Dependency("g", "a", "RELEASE"))
    ensures IsDynamic(Dependency("g", "a", "LATEST"))
    ensures IsDynamic(Dependency("g", "a", "1.0-SNAPSHOT"))
    ensures !IsDynamic(Dependency("g", "a", "1.0"))
    ensures !IsDynamic(Dependency("g", "a", "latest"))
  {
    assert "1.0-SNAPSHOT"[4..] == "SNAPSHOT";
    assert "1.0"[..] != "SNAPSHOT";
    assert "latest"[..] != "SNAPSHOT";
  }

  /** Every listed node's repository URLs, node by node. */
  function UrlsOf(a: Arena, list: seq<nat>): (r: seq<string>)
    requires InArena(a, list)
    ensures forall k :: 0 <= k < |list| ==> forall u :: u in a[list[k]].repositoryUrls ==> u in r
    ensures forall u :: u in r ==> exists k :: 0 <= k < |list| && u in a[list[k]].repositoryUrls
  {
    if list == [] then []
    else
      var rest := UrlsOf(a, list[1..]);
      assert forall k :: 1 <= k < |list| ==> list[k] == list[1..][k - 1];
      var r := a[list[0]].repositoryUrls + rest;
      assert forall u :: u in rest ==> exists k :: 0 <= k < |list| && u in a[list[k]].repositoryUrls by {
        forall u | u in rest ensures exists k :: 0 <= k < |list| && u in a[list[k]].repositoryUrls {
          var k :| 0 <= k < |list[1..]| && u in a[list[1..][k]].repositoryUrls;
          assert u in a[list[k + 1]].repositoryUrls;
        }
      }
      r
  }

  /** `getRepositoryUrls()`: every node's URLs without duplicates, each at
      its first occurrence. */
  function TreeRepositoryUrls(t: PomTree): (r: seq<string>)
    requires Valid(t)
    ensures NoDups(r)
    ensures forall u :: u in r <==> u in UrlsOf(t.arena, t.pomList)
    ensures forall i, j :: 0 <= i < j < |r| ==>
              FirstIndex(UrlsOf(t.arena, t.pomList), r[i]) < FirstIndex(UrlsOf(t.arena, t.pomList), r[j])
  {
    Dedup(UrlsOf(t.arena, t.pomList))
  }

  /** Every built tree lists the central repository, because its root does. */
  lemma CentralAlwaysListed(t: PomTree, w: Workspace, fuel: nat)
    requires Valid(t) && t.root.None? && CreatePomTree(t, w, fuel).Ok?
    ensures Central in TreeRepositoryUrls(CreatePomTree(t, w, fuel).value)
  {
    var u := CreatePomTree(t, w, fuel).value;
    BuiltFromRoot(t, w, fuel);
    assert u.pomList[0] == 0;
    assert Central in u.arena[0].repositoryUrls;
  }

  /** `getPathList()`: each listed node's path, in list order. */
  function PathList(t: PomTree): (r: seq<string>)
    requires Valid(t)
    ensures |r| == |t.pomList|
    ensures forall k :: 0 <= k < |r| ==> r[k] == t.arena[t.pomList[k]].path
  {
    PathsOf(t.arena, t.pomList)
  }

  function PathsOf(a: Arena, list: seq<nat>): (r: seq<string>)
    requires InArena(a, list)
    ensures |r| == |list|
    ensures forall k :: 0 <= k < |r| ==> r[k] == a[list[k]].path
  {
    if list == [] then [] else [a[list[0]].path] + PathsOf(a, list[1..])
  }

  /** The path list of a fresh build starts with the root descriptor and has
      one entry per node. */
  lemma PathListOfBuild(t: PomTree, w: Workspace, fuel: nat)
    requires Valid(t) && t.root.None? && CreatePomTree(t, w, fuel).Ok?
    ensures var u := CreatePomTree(t, w, fuel).value;
      |PathList(u)| == |u.arena| && PathList(u)[0] == w.rootFile(t.repoDir)
  {
    BuiltFromRoot(t, w, fuel);
  }

  /** `getDependenciesMap()`: node path to that node's `getDependencies()`;
      a path listed twice keeps the later node's list. */
  function DependenciesMap(t: PomTree): (r: map<string, seq<Dependency>>)
    requires Valid(t) && AllResolve(t)
    ensures r.Keys == set k | 0 <= k < |t.pomList| :: t.arena[t.pomList[k]].path
    ensures forall k :: 0 <= k < |t.pomList| && LastWithPath(t, k) ==>
              r[t.arena[t.pomList[k]].path] == ResolvedDependencies(t.arena, t.pomList[k])
  {
    var kvs := Entries(t.arena, t.pomList);
    var empty: map<string, seq<Dependency>> := map[];
    EntriesKeys(t);
    EntriesLast(t);
    PutAllFreshKeys(kvs);
    PutAll(empty, kvs)
  }

  /** The order in which the `LinkedHashMap` of `getDependenciesMap()`
      yields its keys: each path where it was first put, which is the order
      of its first appearance in the path list. */
  function DependenciesMapKeys(t: PomTree): (r: seq<string>)
    requires Valid(t) && AllResolve(t)
    ensures NoDups(r)
    ensures forall u :: u in r <==> u in PathList(t)
    ensures forall i, j :: 0 <= i < j < |r| ==> FirstIndex(PathList(t), r[i]) < FirstIndex(PathList(t), r[j])
  {
    Dedup(PathList(t))
  }

  /** The ordered keys are exactly the keys of `DependenciesMap`. */
  lemma DependenciesMapKeysAreKeys(t: PomTree)
    requires Valid(t) && AllResolve(t)
    ensures forall u :: u in DependenciesMapKeys(t) <==> u in DependenciesMap(t)
  {
  }

  lemma EntriesKeys(t: PomTree)
    requires Valid(t) && AllResolve(t)
    ensures KeysOf(Entries(t.arena, t.pomList)) == set k | 0 <= k < |t.pomList| :: t.arena[t.pomList[k]].path
  {
    EntriesKeysListed(t);
    EntriesPathsWritten(t);
  }

  lemma EntriesKeysListed(t: PomTree)
    requires Valid(t) && AllResolve(t)
    ensures KeysOf(Entries(t.arena, t.pomList)) <= set k | 0 <= k < |t.pomList| :: t.arena[t.pomList[k]].path
  {
    var kvs := Entries(t.arena, t.pomList);
    forall x | x in KeysOf(kvs) ensures x in set k | 0 <= k < |t.pomList| :: t.arena[t.pomList[k]].path {
      var j :| 0 <= j < |kvs| && kvs[j].0 == x;
    }
  }

  lemma EntriesPathsWritten(t: PomTree)
    requires Valid(t) && AllResolve(t)
    ensures (set k | 0 <= k < |t.pomList| :: t.arena[t.pomList[k]].path) <= KeysOf(Entries(t.arena, t.pomList))
  {
    var kvs := Entries(t.arena, t.pomList);
    forall x | x in set k | 0 <= k < |t.pomList| :: t.arena[t.pomList[k]].path ensures x in KeysOf(kvs) {
      var j :| 0 <= j < |t.pomList| && t.arena[t.pomList[j]].path == x;
      assert kvs[j].0 == x;
    }
  }

  lemma EntriesLast(t: PomTree)
    requires Valid(t) && AllResolve(t)
    ensures forall k :: 0 <= k < |t.pomList| && LastWithPath(t, k) ==> LastWrite(Entries(t.arena, t.pomList), k)
  {
  }

  /** No later listed node has the path of the `k`-th one. */
  ghost predicate LastWithPath(t: PomTree, k: nat)
    requires Valid(t) && k < |t.pomList|
  {
    forall j :: k < j < |t.pomList| ==> t.arena[t.pomList[j]].path != t.arena[t.pomList[k]].path
  }

  function Entries(a: Arena, list: seq<nat>): (r: seq<(string, seq<Dependency>)>)
    requires InArena(a, list)
    requires ListResolves(a, list)
    ensures |r| == |list|
    ensures forall k :: 0 <= k < |r| ==> r[k] == (a[list[k]].path, ResolvedDependencies(a, list[k]))
  {
    if list == [] then []
    else [(a[list[0]].path, ResolvedDependencies(a, list[0]))] + Entries(a, list[1..])
  }
}
