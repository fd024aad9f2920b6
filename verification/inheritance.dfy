/** The inheritance-linking pass (`POMTree.createInheritanceTree`): for each
    node of the list whose current parent satisfies `hasParent()`, every list
    node whose groupId and artifactId equal the node's declared parent
    coordinates adopts it as an inheritance child. */
module Inheritance {
  import opened Collections
  import opened Poms

  /** Every index of `s` is a node of the arena. */
  predicate InArena(a: Arena, s: seq<nat>)
  {
    forall k :: 0 <= k < |s| ==> s[k] < |a|
  }

  /** Two arenas hold the same descriptors; only links may differ. */
  ghost predicate SamePayloads(a: Arena, b: Arena)
  {
    |a| == |b| && forall n :: 0 <= n < |a| ==> Payload(a[n]) == Payload(b[n])
  }

  /** The match test of the pass: `p`'s groupId and artifactId equal the
      parent coordinates `c` declares. The version is not compared. */
  predicate Matches(a: Arena, p: nat, c: nat)
    requires p < |a| && c < |a|
  {
    a[p].groupId == a[c].parentGroupId && a[p].artifactId == a[c].parentArtifactId
  }

  /** The last node of `ps` that matches `c`, if any. */
  function LastMatch(a: Arena, ps: seq<nat>, c: nat): (r: Option<nat>)
    requires c < |a| && InArena(a, ps)
    ensures r.None? ==> forall k :: 0 <= k < |ps| ==> !Matches(a, ps[k], c)
    ensures r.Some? ==> exists k :: 0 <= k < |ps| && ps[k] == r.value && Matches(a, ps[k], c)
                          && forall j :: k < j < |ps| ==> !Matches(a, ps[j], c)
  {
    if ps == [] then None
    else
      var rest := LastMatch(a, ps[1..], c);
      if rest.Some? then
        var k :| 0 <= k < |ps[1..]| && ps[1..][k] == rest.value && Matches(a, ps[1..][k], c)
                 && forall j :: k < j < |ps[1..]| ==> !Matches(a, ps[1..][j], c);
        assert ps[k + 1] == rest.value;
        assert forall j :: k + 1 < j < |ps| ==> ps[j] == ps[1..][j - 1];
        rest
      else if Matches(a, ps[0], c) then
        assert forall j :: 0 < j < |ps| ==> ps[j] == ps[1..][j - 1];
        Some(ps[0])
      else None
  }

  /** The nodes of `cs`, in order, that `n` adopts: those whose current
      parent satisfies `hasParent()` and whose declared parent coordinates
      match `n`. */
  function Inheritors(a: Arena, cs: seq<nat>, n: nat): (r: seq<nat>)
    requires n < |a| && InArena(a, cs)
    ensures forall c :: c in r <==> c in cs && HasParent(a, c) && Matches(a, n, c)
  {
    if cs == [] then []
    else
      (if HasParent(a, cs[0]) && Matches(a, n, cs[0]) then [cs[0]] else []) + Inheritors(a, cs[1..], n)
  }

  /** The inner loop for child `c`: each matching node of `ps`, in order,
      takes `c` as child (`setParent` followed by `addChildPom`, whose own
      `setParent` makes the first redundant). */
  function ScanParents(a: Arena, ps: seq<nat>, c: nat): (r: Arena)
    requires c < |a| && InArena(a, ps)
    ensures SamePayloads(r, a)
    ensures forall n :: 0 <= n < |a| ==> r[n].aggregatorPoms == a[n].aggregatorPoms
    ensures forall n :: 0 <= n < |a| && n != c ==> r[n].parent == a[n].parent
    decreases |ps|
  {
    if ps == [] then a
    else
      var a1 := if Matches(a, ps[0], c) then AddChildPom(a, ps[0], c) else a;
      ScanParents(a1, ps[1..], c)
  }

  /** The outer loop over the children still to visit. */
  function LinkFrom(a: Arena, list: seq<nat>, cs: seq<nat>): (r: Arena)
    requires InArena(a, list) && InArena(a, cs)
    ensures SamePayloads(r, a)
    ensures forall n :: 0 <= n < |a| ==> r[n].aggregatorPoms == a[n].aggregatorPoms
    ensures forall n :: 0 <= n < |a| && n !in cs ==> r[n].parent == a[n].parent
    decreases |cs|
  {
    if cs == [] then a
    else
      LinkFrom(FirstVisit(a, list, cs[0]), list, cs[1..])
  }

  /** `createInheritanceTree(root, list)`. The list is the duplicate-free
      pre-order list of the tree. */
  function CreateInheritanceTree(a: Arena, list: seq<nat>): (r: Arena)
    requires InArena(a, list) && NoDups(list)
    ensures SamePayloads(r, a)
    ensures forall n :: 0 <= n < |a| ==> r[n].aggregatorPoms == a[n].aggregatorPoms
    ensures forall n :: 0 <= n < |a| ==>
              r[n].childrenPoms == a[n].childrenPoms + (if n in list then Inheritors(a, list, n) else [])
    ensures forall c :: 0 <= c < |a| ==>
              r[c].parent == (if c in list && HasParent(a, c) && LastMatch(a, list, c).Some?
                              then LastMatch(a, list, c) else a[c].parent)
  {
    LinkFromChildren(a, list, list);
    LinkFromParents(a, list, list);
    LinkFrom(a, list, list)
  }

  /** Matching reads only descriptor content. */
  lemma {:induction false} LastMatchFrame(a: Arena, b: Arena, ps: seq<nat>, c: nat)
    requires SamePayloads(a, b) && c < |a| && InArena(a, ps)
    ensures LastMatch(a, ps, c) == LastMatch(b, ps, c)
    decreases |ps|
  {
    if ps != [] {
      LastMatchFrame(a, b, ps[1..], c);
      assert Matches(a, ps[0], c) == Matches(b, ps[0], c) by {
        assert Payload(a[ps[0]]) == Payload(b[ps[0]]);
        assert Payload(a[c]) == Payload(b[c]);
      }
    }
  }

  /** `hasParent()` reads the node's own link and its parent's content. */
  lemma HasParentFrame(a: Arena, b: Arena, c: nat)
    requires SamePayloads(a, b) && c < |a| && a[c].parent == b[c].parent
    ensures HasParent(a, c) == HasParent(b, c)
  {
    if a[c].parent.Some? && a[c].parent.value < |a| {
      assert Payload(a[a[c].parent.value]) == Payload(b[a[c].parent.value]);
    }
  }

  /** The inheritors of `n` depend only on content and on the links of the
      candidates themselves. */
  lemma {:induction false} InheritorsFrame(a: Arena, b: Arena, cs: seq<nat>, n: nat)
    requires SamePayloads(a, b) && n < |a| && InArena(a, cs)
    requires forall k :: 0 <= k < |cs| ==> a[cs[k]].parent == b[cs[k]].parent
    ensures Inheritors(a, cs, n) == Inheritors(b, cs, n)
    decreases |cs|
  {
    if cs != [] {
      InheritorsFrame(a, b, cs[1..], n);
      HasParentFrame(a, b, cs[0]);
      assert Payload(a[n]) == Payload(b[n]);
      assert Payload(a[cs[0]]) == Payload(b[cs[0]]);
    }
  }

  /** One inner loop: each node of `ps` that matches `c` gains `c` once at
      the end of its children, and `c`'s parent becomes the last match. */
  lemma ScanParentsEffect(a: Arena, ps: seq<nat>, c: nat)
    requires c < |a| && InArena(a, ps) && NoDups(ps)
    ensures forall n :: 0 <= n < |a| ==>
              ScanParents(a, ps, c)[n].childrenPoms
                == a[n].childrenPoms + (if n in ps && Matches(a, n, c) then [c] else [])
    ensures ScanParents(a, ps, c)[c].parent
              == (if LastMatch(a, ps, c).Some? then LastMatch(a, ps, c) else a[c].parent)
  {
    ScanParentsChildren(a, ps, c);
    ScanParentsParent(a, ps, c);
  }

  lemma {:induction false} ScanParentsChildren(a: Arena, ps: seq<nat>, c: nat)
    requires c < |a| && InArena(a, ps) && NoDups(ps)
    ensures forall n :: 0 <= n < |a| ==>
              ScanParents(a, ps, c)[n].childrenPoms
                == a[n].childrenPoms + (if n in ps && Matches(a, n, c) then [c] else [])
    decreases |ps|
  {
    if ps != [] {
      var p := ps[0];
      var a1 := if Matches(a, p, c) then AddChildPom(a, p, c) else a;
      assert NoDups(ps[1..]);
      ScanParentsChildren(a1, ps[1..], c);
      var r := ScanParents(a, ps, c);
      assert r == ScanParents(a1, ps[1..], c);
      forall n | 0 <= n < |a|
        ensures r[n].childrenPoms == a[n].childrenPoms + (if n in ps && Matches(a, n, c) then [c] else [])
      {
        ScanChildrenStep(a, a1, ps, c, n, r[n].childrenPoms);
      }
    }
  }

  /** One step of the scan, for node `n`: what the head visit adds and what
      the rest adds together append `c` once exactly when `n` is a matching
      node of `ps`. */
  lemma ScanChildrenStep(a: Arena, a1: Arena, ps: seq<nat>, c: nat, n: nat, after: seq<nat>)
    requires c < |a| && n < |a| && InArena(a, ps) && NoDups(ps) && ps != []
    requires a1 == if Matches(a, ps[0], c) then AddChildPom(a, ps[0], c) else a
    requires after == a1[n].childrenPoms + (if n in ps[1..] && Matches(a1, n, c) then [c] else [])
    ensures after == a[n].childrenPoms + (if n in ps && Matches(a, n, c) then [c] else [])
  {
    assert SamePayloads(a1, a);
    MatchesFrame(a1, a, n, c);
    if n == ps[0] {
      assert n !in ps[1..];
    } else {
      assert n in ps <==> n in ps[1..];
    }
  }

  lemma {:induction false} ScanParentsParent(a: Arena, ps: seq<nat>, c: nat)
    requires c < |a| && InArena(a, ps)
    ensures ScanParents(a, ps, c)[c].parent
              == (if LastMatch(a, ps, c).Some? then LastMatch(a, ps, c) else a[c].parent)
    decreases |ps|
  {
    if ps != [] {
      var a1 := if Matches(a, ps[0], c) then AddChildPom(a, ps[0], c) else a;
      assert SamePayloads(a1, a);
      ScanParentsParent(a1, ps[1..], c);
      LastMatchFrame(a1, a, ps[1..], c);
    }
  }

  /** Matching reads only the payloads. */
  lemma MatchesFrame(a1: Arena, a: Arena, n: nat, c: nat)
    requires SamePayloads(a1, a) && n < |a| && c < |a|
    ensures Matches(a1, n, c) == Matches(a, n, c)
  {
    assert Payload(a1[n]) == Payload(a[n]);
    assert Payload(a1[c]) == Payload(a[c]);
  }

  /** The arena after visiting the first child of `cs`. */
  function FirstVisit(a: Arena, list: seq<nat>, c: nat): (r: Arena)
    requires InArena(a, list) && c < |a|
    ensures SamePayloads(r, a)
    ensures forall n :: 0 <= n < |a| && n != c ==> r[n].parent == a[n].parent
  {
    if HasParent(a, c) then ScanParents(a, list, c) else a
  }

  /** Visiting one child `c` appends it to the children of each list node
      it matches, provided its parent satisfies `hasParent()`. */
  lemma VisitChildren(a: Arena, list: seq<nat>, c: nat, n: nat)
    requires InArena(a, list) && NoDups(list) && c < |a| && n < |a|
    ensures FirstVisit(a, list, c)[n].childrenPoms
              == a[n].childrenPoms + (if n in list && HasParent(a, c) && Matches(a, n, c) then [c] else [])
  {
    if HasParent(a, c) {
      ScanParentsEffect(a, list, c);
    }
  }

  /** The outer loop over a duplicate-free `cs`, for one node `n` of the
      arena: a list node gains, in order, the nodes of `cs` it adopts. */
  lemma {:induction false} LinkFromChildrenAt(a: Arena, list: seq<nat>, cs: seq<nat>, n: nat)
    requires InArena(a, list) && NoDups(list) && InArena(a, cs) && NoDups(cs) && n < |a|
    ensures LinkFrom(a, list, cs)[n].childrenPoms
              == a[n].childrenPoms + (if n in list then Inheritors(a, cs, n) else [])
    decreases |cs|
  {
    if cs != [] {
      var c := cs[0];
      var a1 := FirstVisit(a, list, c);
      VisitChildren(a, list, c, n);
      assert NoDups(cs[1..]);
      LinkFromChildrenAt(a1, list, cs[1..], n);
      assert LinkFrom(a, list, cs) == LinkFrom(a1, list, cs[1..]);
      forall k | 0 <= k < |cs[1..]| ensures a1[cs[1..][k]].parent == a[cs[1..][k]].parent {
        assert cs[1..][k] == cs[k + 1] && cs[k + 1] != cs[0];
      }
      InheritorsFrame(a1, a, cs[1..], n);
      var x := if HasParent(a, c) && Matches(a, n, c) then [c] else [];
      var rest := Inheritors(a, cs[1..], n);
      assert Inheritors(a, cs, n) == x + rest;
      if n in list {
        ConcatAssoc(a[n].childrenPoms, x, rest);
      } else {
        assert a[n].childrenPoms + [] == a[n].childrenPoms;
      }
    }
  }

  /** The outer loop over a duplicate-free `cs`: every node of the list
      gains, in order, the nodes of `cs` it adopts. */
  lemma LinkFromChildren(a: Arena, list: seq<nat>, cs: seq<nat>)
    requires InArena(a, list) && NoDups(list) && InArena(a, cs) && NoDups(cs)
    ensures forall n :: 0 <= n < |a| ==>
              LinkFrom(a, list, cs)[n].childrenPoms
                == a[n].childrenPoms + (if n in list then Inheritors(a, cs, n) else [])
  {
    forall n | 0 <= n < |a|
      ensures LinkFrom(a, list, cs)[n].childrenPoms
                == a[n].childrenPoms + (if n in list then Inheritors(a, cs, n) else [])
    {
      LinkFromChildrenAt(a, list, cs, n);
    }
  }

  /** The outer loop over a duplicate-free `cs`: each visited node whose
      parent satisfies `hasParent()` and that has a match ends with its last
      match in `list` as parent; every other node keeps its parent. */
  lemma {:induction false} LinkFromParents(a: Arena, list: seq<nat>, cs: seq<nat>)
    requires InArena(a, list) && NoDups(list) && InArena(a, cs) && NoDups(cs)
    ensures forall c :: 0 <= c < |a| ==>
              LinkFrom(a, list, cs)[c].parent
                == (if c in cs && HasParent(a, c) && LastMatch(a, list, c).Some?
                    then LastMatch(a, list, c) else a[c].parent)
    decreases |cs|
  {
    if cs != [] {
      var c := cs[0];
      var a1 := FirstVisit(a, list, c);
      if HasParent(a, c) {
        ScanParentsEffect(a, list, c);
      }
      assert NoDups(cs[1..]);
      LinkFromParents(a1, list, cs[1..]);
      LastMatchFrame(a1, a, list, c);
      var r := LinkFrom(a, list, cs);
      assert r == LinkFrom(a1, list, cs[1..]);
      forall x | 0 <= x < |a|
        ensures r[x].parent == (if x in cs && HasParent(a, x) && LastMatch(a, list, x).Some?
                                then LastMatch(a, list, x) else a[x].parent)
      {
        if x != c {
          HasParentFrame(a1, a, x);
          LastMatchFrame(a1, a, list, x);
          assert x in cs <==> x in cs[1..];
        } else {
          assert c !in cs[1..];
        }
      }
    }
  }

  /** A node without a linked parent, such as the root, is never linked:
      its parent stays empty and it joins no children list. */
  lemma RootNeverLinked(a: Arena, list: seq<nat>, root: nat)
    requires InArena(a, list) && NoDups(list) && root < |a| && a[root].parent.None?
    ensures CreateInheritanceTree(a, list)[root].parent.None?
    ensures forall n :: 0 <= n < |a| && n in list ==> root !in Inheritors(a, list, n)
  {
  }
}
