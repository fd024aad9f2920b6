/** The aggregation tree builder and its pre-order node list
    (`POMTree.createAggregatorTree`, `setPomList`). Nodes enter the arena in
    the order they are parsed, so a module's subtree occupies a contiguous
    range of indices right after the module's own node. */
module Aggregation {
  import opened Collections
  import opened Poms
  import opened Xml
  import opened Extraction

  /** What the builder sees of the file system: which paths exist, the
      document of every readable descriptor, and how paths are joined. */
  datatype Workspace = Workspace(
    present: set<string>,
    documents: map<string, XmlNode>,
    /** The descriptor path of module `m` declared by the descriptor at `p`. */
    moduleFile: (string, string) -> string,
    /** The root descriptor path of a repository directory. */
    rootFile: string -> string)

  datatype BuildError =
    | MissingRoot(path: string)
    | Unreadable(path: string)
    | MissingConfiguration(path: string)
    | DepthExceeded

  /** `new POMParser().parse(path)`: a file that cannot be read or parsed, or
      whose surefire plugin has no configuration, makes the parser throw. */
  function Parse(w: Workspace, path: string): (r: Result<Node, BuildError>)
    ensures path !in w.documents ==> r == Err(Unreadable(path))
    ensures path in w.documents && !Readable(w.documents[path]) ==> r == Err(MissingConfiguration(path))
    ensures r.Ok? ==> path in w.documents && Readable(w.documents[path]) && r.value == Extract(w.documents[path], path)
  {
    if path !in w.documents then Err(Unreadable(path))
    else if !Readable(w.documents[path]) then Err(MissingConfiguration(path))
    else Ok(Extract(w.documents[path], path))
  }

  /** The parser the builder applies to each descriptor path. */
  type Parser = string -> Result<Node, BuildError>

  /** `parse(w, ·)` as a parser. */
  function ParserOf(w: Workspace): Parser
  {
    path => Parse(w, path)
  }

  /** A node as the parser hands it over: not yet linked to any other. */
  predicate Unlinked(n: Node)
  {
    n.parent.None? && n.aggregatorPoms == [] && n.childrenPoms == []
  }

  /** Every node the parser produces is unlinked. */
  ghost predicate ParsesUnlinked(parse: Parser)
  {
    forall path :: parse(path).Ok? ==> Unlinked(parse(path).value)
  }

  lemma ParserOfFresh(w: Workspace)
    ensures ParsesUnlinked(ParserOf(w))
  {
  }

  /** A node aggregates modules when its packaging is `pom` and it lists at
      least one module. */
  predicate Aggregates(n: Node)
  {
    n.packaging == "pom" && |n.modules| > 0
  }

  /** `createAggregatorTree(path)` appending to arena `a`: the descriptor is
      parsed into node `|a|` and, when it aggregates, each module in order is
      built the same way and attached to it; the first failure aborts the
      whole build. `join(p, m)` is the path of module `m` of the descriptor
      at `p`; `fuel` bounds the nesting depth. */
  function BuildTree(parse: Parser, join: (string, string) -> string, a: Arena, path: string, fuel: nat)
    : (r: Result<Arena, BuildError>)
    ensures r.Ok? ==> |r.value| > |a| && r.value[..|a|] == a
    ensures r.Ok? ==> parse(path).Ok? && Payload(r.value[|a|]) == Payload(parse(path).value)
    ensures r.Ok? ==> r.value[|a|].parent == parse(path).value.parent
    ensures r.Ok? ==> r.value[|a|].childrenPoms == parse(path).value.childrenPoms
    ensures fuel > 0 && parse(path).Err? ==> r == Err(parse(path).error)
    decreases fuel, 0
  {
    if fuel == 0 then Err(DepthExceeded)
    else
      match parse(path)
      case Err(e) => Err(e)
      case Ok(n) =>
        var a1 := a + [n];
        if Aggregates(n) then BuildModules(parse, join, a1, |a|, path, n.modules, fuel - 1)
        else Ok(a1)
  }

  /** The module loop of `createAggregatorTree` for node `p`. */
  function BuildModules(parse: Parser, join: (string, string) -> string, a: Arena, p: nat, path: string,
                        mods: seq<string>, fuel: nat): (r: Result<Arena, BuildError>)
    requires p < |a|
    ensures r.Ok? ==> |r.value| >= |a|
    ensures r.Ok? ==> forall x :: 0 <= x < |a| && x != p ==> r.value[x] == a[x]
    ensures r.Ok? ==> r.value[p] == a[p].(aggregatorPoms := r.value[p].aggregatorPoms)
    decreases fuel, 1, |mods|
  {
    if mods == [] then Ok(a)
    else
      match BuildTree(parse, join, a, join(path, mods[0]), fuel)
      case Err(e) => Err(e)
      case Ok(b) =>
        assert b[p] == b[..|a|][p];
        BuildModules(parse, join, AddAggregatorPom(b, p, |a|), p, path, mods[1..], fuel)
  }

  /** `setPomList(pom, list)` from node `i`: the node, then the lists of its
      aggregated modules in order. A module index that does not lie after
      its aggregator is not followed; on a built tree this never happens. */
  function PreOrder(a: Arena, i: nat): (r: seq<nat>)
    requires i < |a|
    ensures r != [] && r[0] == i
    ensures forall k :: 0 <= k < |r| ==> i <= r[k] < |a|
    decreases |a| - i, 1
  {
    [i] + PreOrderList(a, i, a[i].aggregatorPoms)
  }

  function PreOrderList(a: Arena, i: nat, cs: seq<nat>): (r: seq<nat>)
    requires i < |a|
    ensures forall k :: 0 <= k < |r| ==> i < r[k] < |a|
    decreases |a| - i, 0, |cs|
  {
    if cs == [] then []
    else (if i < cs[0] < |a| then PreOrder(a, cs[0]) else []) + PreOrderList(a, i, cs[1..])
  }

  /** Every node in `lo..hi` aggregates only later nodes below `hi`. */
  ghost predicate Closed(a: Arena, lo: nat, hi: nat)
  {
    hi <= |a| &&
    forall x, k :: lo <= x < hi && 0 <= k < |a[x].aggregatorPoms| ==> x < a[x].aggregatorPoms[k] < hi
  }

  /** The pre-order walk from a node of a closed range reads only the module
      lists inside the range. */
  lemma {:induction false} PreOrderFrame(a: Arena, b: Arena, lo: nat, hi: nat, x: nat)
    requires Closed(a, lo, hi) && hi <= |b| && lo <= x < hi
    requires forall y :: lo <= y < hi ==> b[y].aggregatorPoms == a[y].aggregatorPoms
    ensures PreOrder(b, x) == PreOrder(a, x)
    decreases hi - x, 1
  {
    PreOrderListFrame(a, b, lo, hi, x, a[x].aggregatorPoms);
  }

  lemma {:induction false} PreOrderListFrame(a: Arena, b: Arena, lo: nat, hi: nat, x: nat, cs: seq<nat>)
    requires Closed(a, lo, hi) && hi <= |b| && x < hi
    requires forall y :: lo <= y < hi ==> b[y].aggregatorPoms == a[y].aggregatorPoms
    requires forall k :: 0 <= k < |cs| ==> x < cs[k] < hi && lo <= cs[k]
    ensures PreOrderList(b, x, cs) == PreOrderList(a, x, cs)
    decreases hi - x, 0, |cs|
  {
    if cs != [] {
      PreOrderFrame(a, b, lo, hi, cs[0]);
      PreOrderListFrame(a, b, lo, hi, x, cs[1..]);
    }
  }

  /** Walking a module list extended by one module walks that module's
      subtree last. */
  lemma {:induction false} PreOrderListSnoc(a: Arena, i: nat, cs: seq<nat>, c: nat)
    requires i < c < |a|
    ensures PreOrderList(a, i, cs + [c]) == PreOrderList(a, i, cs) + PreOrder(a, c)
    decreases |cs|
  {
    if cs == [] {
      assert [c][1..] == [];
    } else {
      PreOrderListSnoc(a, i, cs[1..], c);
      assert (cs + [c])[1..] == cs[1..] + [c];
      var h := if i < cs[0] < |a| then PreOrder(a, cs[0]) else [];
      ConcatAssoc(h, PreOrderList(a, i, cs[1..]), PreOrder(a, c));
    }
  }

  /** The tree built from `path` occupies `|a|..|b|`, aggregates only inside
      that range, and its pre-order list is exactly that range in order:
      every node once, each module's subtree right after its aggregator. */
  lemma {:induction false} BuildTreeShape(parse: Parser, join: (string, string) -> string, a: Arena, path: string, fuel: nat)
    requires ParsesUnlinked(parse) && BuildTree(parse, join, a, path, fuel).Ok?
    ensures var b := BuildTree(parse, join, a, path, fuel).value;
      Closed(b, |a|, |b|) && PreOrder(b, |a|) == Range(|a|, |b|)
    decreases fuel, 0
  {
    var n := parse(path).value;
    var a1 := a + [n];
    LeafShape(a, n);
    if Aggregates(n) {
      BuildModulesShape(parse, join, a1, |a|, path, n.modules, fuel - 1);
    }
  }

  /** A node appended to the arena is a one-node tree. */
  lemma LeafShape(a: Arena, n: Node)
    requires n.aggregatorPoms == []
    ensures Closed(a + [n], |a|, |a| + 1) && PreOrder(a + [n], |a|) == Range(|a|, |a| + 1)
  {
    assert PreOrderList(a + [n], |a|, []) == [];
  }

  /** The module loop keeps the range from `p` closed and walked in order. */
  lemma {:induction false} BuildModulesShape(parse: Parser, join: (string, string) -> string, a: Arena, p: nat,
                                             path: string, mods: seq<string>, fuel: nat)
    requires ParsesUnlinked(parse) && p < |a| && Closed(a, p, |a|) && PreOrder(a, p) == Range(p, |a|)
    requires BuildModules(parse, join, a, p, path, mods, fuel).Ok?
    ensures var b := BuildModules(parse, join, a, p, path, mods, fuel).value;
      Closed(b, p, |b|) && PreOrder(b, p) == Range(p, |b|)
    decreases fuel, 1, |mods|
  {
    if mods != [] {
      var b := BuildTree(parse, join, a, join(path, mods[0]), fuel).value;
      BuildTreeShape(parse, join, a, join(path, mods[0]), fuel);
      PrefixAt(a, b);
      AttachShape(a, b, p);
      BuildModulesShape(parse, join, AddAggregatorPom(b, p, |a|), p, path, mods[1..], fuel);
    }
  }

  lemma PrefixAt(a: Arena, b: Arena)
    requires |b| >= |a| && b[..|a|] == a
    ensures forall y :: 0 <= y < |a| ==> b[y] == a[y]
  {
    forall y | 0 <= y < |a| ensures b[y] == a[y] {
      assert b[..|a|][y] == b[y];
    }
  }

  /** Attaching a tree built after the range `p..|a|` as the last module of
      `p` extends the walk from `p` by that tree's walk. */
  lemma AttachShape(a: Arena, b: Arena, p: nat)
    requires p < |a| && Closed(a, p, |a|) && PreOrder(a, p) == Range(p, |a|)
    requires |b| > |a| && Closed(b, |a|, |b|) && PreOrder(b, |a|) == Range(|a|, |b|)
    requires forall y :: 0 <= y < |a| ==> b[y] == a[y]
    ensures var a' := AddAggregatorPom(b, p, |a|);
      Closed(a', p, |a'|) && PreOrder(a', p) == Range(p, |a'|)
  {
    AggregatedClosed(a, b, AddAggregatorPom(b, p, |a|), p, |a|);
    AttachWalk(a, b, p);
  }

  /** The walk half of `AttachShape`. */
  lemma AttachWalk(a: Arena, b: Arena, p: nat)
    requires p < |a| && Closed(a, p, |a|) && PreOrder(a, p) == Range(p, |a|)
    requires |b| > |a| && Closed(b, |a|, |b|) && PreOrder(b, |a|) == Range(|a|, |b|)
    requires forall y :: 0 <= y < |a| ==> b[y] == a[y]
    ensures PreOrder(AddAggregatorPom(b, p, |a|), p) == Range(p, |b|)
  {
    var a' := AddAggregatorPom(b, p, |a|);
    OldModulesWalk(a, b, p);
    NewModuleWalk(a, b, p);
    JoinWalks(a', p, |a|, |b|, a[p].aggregatorPoms);
  }

  /** A node whose old modules walk `p + 1..c` and whose new last module `c`
      walks `c..hi` walks `p..hi`. */
  lemma JoinWalks(a: Arena, p: nat, c: nat, hi: nat, olds: seq<nat>)
    requires p < c < |a| && c <= hi
    requires a[p].aggregatorPoms == olds + [c]
    requires PreOrderList(a, p, olds) == Range(p + 1, c)
    requires PreOrder(a, c) == Range(c, hi)
    ensures PreOrder(a, p) == Range(p, hi)
  {
    PreOrderListSnoc(a, p, olds, c);
    assert PreOrder(a, p) == [p] + PreOrderList(a, p, olds + [c]);
    RangeHead(p, c, hi);
  }

  /** After the attachment the old modules of `p` still walk `p + 1..|a|`. */
  lemma OldModulesWalk(a: Arena, b: Arena, p: nat)
    requires p < |a| && Closed(a, p, |a|) && PreOrder(a, p) == Range(p, |a|)
    requires |b| > |a|
    requires forall y :: 0 <= y < |a| ==> b[y] == a[y]
    ensures PreOrderList(AddAggregatorPom(b, p, |a|), p, a[p].aggregatorPoms) == Range(p + 1, |a|)
  {
    var a' := AddAggregatorPom(b, p, |a|);
    ClosedShrink(a, p, |a|);
    ClosedChildren(a, p, |a|);
    PreOrderListFrame(a, a', p + 1, |a|, p, a[p].aggregatorPoms);
    PreOrderTail(a, p);
  }

  /** After the attachment the new module still walks `|a|..|b|`. */
  lemma NewModuleWalk(a: Arena, b: Arena, p: nat)
    requires p < |a| < |b| && Closed(b, |a|, |b|) && PreOrder(b, |a|) == Range(|a|, |b|)
    ensures PreOrder(AddAggregatorPom(b, p, |a|), |a|) == Range(|a|, |b|)
  {
    PreOrderFrame(b, AddAggregatorPom(b, p, |a|), |a|, |b|, |a|);
  }

  /** The modules of a node in a closed range lie after it, inside the range. */
  lemma ClosedChildren(a: Arena, p: nat, hi: nat)
    requires p < hi && Closed(a, p, hi)
    ensures forall k :: 0 <= k < |a[p].aggregatorPoms| ==> p < a[p].aggregatorPoms[k] < hi
  {
  }

  /** The walk of a node's modules is its whole walk without the node. */
  lemma PreOrderTail(a: Arena, p: nat)
    requires p < |a| && PreOrder(a, p) == Range(p, |a|)
    ensures PreOrderList(a, p, a[p].aggregatorPoms) == Range(p + 1, |a|)
  {
    var xs := PreOrderList(a, p, a[p].aggregatorPoms);
    assert PreOrder(a, p) == [p] + xs;
    assert Range(p, |a|) == [p] + Range(p + 1, |a|);
    assert ([p] + xs)[1..] == xs;
  }

  /** A closed range stays closed without its first node. */
  lemma ClosedShrink(a: Arena, lo: nat, hi: nat)
    requires Closed(a, lo, hi)
    ensures Closed(a, lo + 1, hi)
  {
  }

  /** Attaching the closed subtree `c..|b|` to `p` keeps `p..|b|` closed. */
  lemma AggregatedClosed(a: Arena, b: Arena, a': Arena, p: nat, c: nat)
    requires p < |a| == c && Closed(a, p, |a|)
    requires |b| > c && Closed(b, c, |b|)
    requires forall y :: 0 <= y < |a| ==> b[y] == a[y]
    requires a' == AddAggregatorPom(b, p, c)
    ensures Closed(a', p, |a'|)
  {
    forall x, k | p <= x < |a'| && 0 <= k < |a'[x].aggregatorPoms|
      ensures x < a'[x].aggregatorPoms[k] < |a'|
    {
      if x == p {
        if k < |a[p].aggregatorPoms| {
          assert a'[x].aggregatorPoms[k] == a[p].aggregatorPoms[k];
        }
      } else if x < c {
        assert a'[x].aggregatorPoms == a[x].aggregatorPoms;
      } else {
        assert a'[x].aggregatorPoms == b[x].aggregatorPoms;
      }
    }
  }

  /** The modules attached to `p` by the loop, after those it already had:
      one per module name, in order, each a tree parsed from the joined path
      and linked back to `p`. */
  ghost predicate AttachedInOrder(parse: Parser, join: (string, string) -> string, b: Arena, p: nat,
                                  before: nat, path: string, mods: seq<string>)
    requires p < |b|
  {
    |b[p].aggregatorPoms| == before + |mods| &&
    forall k :: 0 <= k < |mods| ==> AttachedModule(parse, join, b, p, before + k, path, mods[k])
  }

  /** The `i`-th module of `p` is a tree parsed from `path` joined with
      `name` and linked back to `p`. */
  ghost predicate AttachedModule(parse: Parser, join: (string, string) -> string, b: Arena, p: nat,
                                 i: nat, path: string, name: string)
    requires p < |b|
  {
    i < |b[p].aggregatorPoms| &&
    var c := b[p].aggregatorPoms[i];
    c < |b| && b[c].parent == Some(p) &&
    parse(join(path, name)).Ok? && Payload(b[c]) == Payload(parse(join(path, name)).value)
  }

  lemma {:induction false} BuildModulesOrder(parse: Parser, join: (string, string) -> string, a: Arena, p: nat,
                                             path: string, mods: seq<string>, fuel: nat)
    requires p < |a| && BuildModules(parse, join, a, p, path, mods, fuel).Ok?
    ensures var b := BuildModules(parse, join, a, p, path, mods, fuel).value;
      AttachedInOrder(parse, join, b, p, |a[p].aggregatorPoms|, path, mods) &&
      b[p].aggregatorPoms[..|a[p].aggregatorPoms|] == a[p].aggregatorPoms
    decreases |mods|
  {
    var b := BuildModules(parse, join, a, p, path, mods, fuel).value;
    if mods == [] {
      assert b == a;
    } else {
      var c := |a|;
      var b0 := BuildTree(parse, join, a, join(path, mods[0]), fuel).value;
      assert b0[p] == b0[..|a|][p];
      var a' := AddAggregatorPom(b0, p, c);
      assert b == BuildModules(parse, join, a', p, path, mods[1..], fuel).value;
      BuildModulesOrder(parse, join, a', p, path, mods[1..], fuel);
      AttachedStep(parse, join, a', b, p, c, a[p].aggregatorPoms, path, mods);
    }
  }

  /** One turn of the module loop: module `c` attached to `p` after `before`,
      then the remaining modules attached in order. */
  lemma AttachedStep(parse: Parser, join: (string, string) -> string, a': Arena, b: Arena, p: nat, c: nat,
                     before: seq<nat>, path: string, mods: seq<string>)
    requires p < |a'| <= |b| && c < |a'| && c != p && mods != []
    requires a'[p].aggregatorPoms == before + [c] && a'[c].parent == Some(p)
    requires parse(join(path, mods[0])).Ok? && Payload(a'[c]) == Payload(parse(join(path, mods[0])).value)
    requires AttachedInOrder(parse, join, b, p, |before| + 1, path, mods[1..])
    requires b[p].aggregatorPoms[..|before| + 1] == a'[p].aggregatorPoms && b[c] == a'[c]
    ensures AttachedInOrder(parse, join, b, p, |before|, path, mods)
    ensures b[p].aggregatorPoms[..|before|] == before
  {
    var n := |before|;
    var cs := b[p].aggregatorPoms;
    assert |cs| == n + |mods|;
    assert cs[..n] == cs[..n + 1][..n];
    assert cs[n] == cs[..n + 1][n] == c;
    assert AttachedModule(parse, join, b, p, n, path, mods[0]);
    forall k | 0 < k < |mods|
      ensures AttachedModule(parse, join, b, p, n + k, path, mods[k])
    {
      assert mods[1..][k - 1] == mods[k];
      assert AttachedModule(parse, join, b, p, (n + 1) + (k - 1), path, mods[1..][k - 1]);
    }
    assert AttachedInOrder(parse, join, b, p, n, path, mods);
  }

  /** An aggregating descriptor gets exactly its modules, in declaration
      order; any other descriptor gets none. */
  lemma BuildTreeModules(parse: Parser, join: (string, string) -> string, a: Arena, path: string, fuel: nat)
    requires ParsesUnlinked(parse) && BuildTree(parse, join, a, path, fuel).Ok?
    ensures var b := BuildTree(parse, join, a, path, fuel).value;
      var n := parse(path).value;
      if Aggregates(n) then AttachedInOrder(parse, join, b, |a|, 0, path, n.modules)
      else b[|a|].aggregatorPoms == []
  {
    var n := parse(path).value;
    if Aggregates(n) {
      BuildModulesOrder(parse, join, a + [n], |a|, path, n.modules, fuel - 1);
    }
  }
}
