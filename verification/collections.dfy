/** Generic sequence and map helpers shared by the descriptor model: the
    failure-carrying wrappers, the list and map folds the Java code performs
    with `ArrayList`/`HashMap`, and their characterisations. */
module Collections {

  datatype Option<+T> = None | Some(value: T)

  datatype Result<+T, +E> = Ok(value: T) | Err(error: E)

  /** Concatenation regroups freely. */
  lemma ConcatAssoc<T>(x: seq<T>, y: seq<T>, z: seq<T>)
    ensures x + y + z == x + (y + z)
  {
  }

  /** The argument of a Java `equals(Object)` call: a null reference, an
      instance of the receiver's own class, or an instance of another class. */
  datatype Operand<+T> = Null | SameClass(value: T) | OtherClass

  /** No element occurs twice. */
  ghost predicate NoDups<T>(s: seq<T>)
  {
    forall i, j :: 0 <= i < j < |s| ==> s[i] != s[j]
  }

  /** Position of the first occurrence of `x` in `s`. */
  function FirstIndex<T(==)>(s: seq<T>, x: T): (r: nat)
    requires x in s
    ensures r < |s| && s[r] == x
    ensures forall j :: 0 <= j < r ==> s[j] != x
  {
    if s[0] == x then 0 else 1 + FirstIndex(s[1..], x)
  }

  /** `list.contains(x) ? list : list.add(x)`: append only when absent. */
  function AddUnique<T(==)>(s: seq<T>, x: T): seq<T>
  {
    if x in s then s else s + [x]
  }

  /** Appending an element that is already present changes nothing, so adding
      the same element twice is the same as adding it once. */
  lemma AddUniqueIdempotent<T>(s: seq<T>, x: T)
    ensures x in AddUnique(s, x)
    ensures AddUnique(AddUnique(s, x), x) == AddUnique(s, x)
    ensures NoDups(s) ==> NoDups(AddUnique(s, x))
  {
  }

  /** Adds every element of `xs`, front to back, to `acc` with `AddUnique`:
      the repeated `addRepositoryUrl` calls and `Stream.distinct`. The result
      extends `acc`, holds exactly the elements of both, never repeats one
      when `acc` does not, and keeps the new ones in first-occurrence order. */
  function DedupInto<T(==,!new)>(acc: seq<T>, xs: seq<T>): (r: seq<T>)
    ensures |acc| <= |r| && r[..|acc|] == acc
    ensures forall x :: x in r <==> x in acc || x in xs
    ensures forall i :: |acc| <= i < |r| ==> r[i] in xs && r[i] !in acc
    ensures NoDups(acc) ==> NoDups(r)
    ensures forall i, j :: |acc| <= i < j < |r| ==>
              r[i] in xs && r[j] in xs && FirstIndex(xs, r[i]) < FirstIndex(xs, r[j])
    decreases |xs|
  {
    if xs == [] then acc
    else
      var r := DedupInto(AddUnique(acc, xs[0]), xs[1..]);
      DedupStep(acc, xs, r);
      r
  }

  /** One step of `DedupInto`: what the recursive call promises for the
      accumulator extended by `xs[0]` carries over to `acc` and `xs`. */
  lemma DedupStep<T(!new)>(acc: seq<T>, xs: seq<T>, r: seq<T>)
    requires xs != []
    requires var acc' := AddUnique(acc, xs[0]);
      && |acc'| <= |r| && r[..|acc'|] == acc'
      && (forall x :: x in r <==> x in acc' || x in xs[1..])
      && (forall i :: |acc'| <= i < |r| ==> r[i] in xs[1..] && r[i] !in acc')
      && (NoDups(acc') ==> NoDups(r))
      && (forall i, j :: |acc'| <= i < j < |r| ==>
            r[i] in xs[1..] && r[j] in xs[1..] && FirstIndex(xs[1..], r[i]) < FirstIndex(xs[1..], r[j]))
    ensures |acc| <= |r| && r[..|acc|] == acc
    ensures forall x :: x in r <==> x in acc || x in xs
    ensures forall i :: |acc| <= i < |r| ==> r[i] in xs && r[i] !in acc
    ensures NoDups(acc) ==> NoDups(r)
    ensures forall i, j :: |acc| <= i < j < |r| ==>
              r[i] in xs && r[j] in xs && FirstIndex(xs, r[i]) < FirstIndex(xs, r[j])
  {
    var acc' := AddUnique(acc, xs[0]);
    assert xs == [xs[0]] + xs[1..];
    StepPrefix(acc, xs[0], r);
    StepNew(acc, xs, r);
    if NoDups(acc) {
      AddUniqueIdempotent(acc, xs[0]);
    }
    StepOrder(acc, xs, r);
  }

  /** A result extending `AddUnique(acc, x)` extends `acc`. */
  lemma StepPrefix<T>(acc: seq<T>, x: T, r: seq<T>)
    requires |AddUnique(acc, x)| <= |r| && r[..|AddUnique(acc, x)|] == AddUnique(acc, x)
    ensures |acc| <= |r| && r[..|acc|] == acc
  {
    var acc' := AddUnique(acc, x);
    assert acc'[..|acc|] == acc;
    assert r[..|acc|] == acc'[..|acc|];
  }

  /** The elements a step adds beyond `acc` come from `xs` and are new. */
  lemma StepNew<T>(acc: seq<T>, xs: seq<T>, r: seq<T>)
    requires xs != []
    requires var acc' := AddUnique(acc, xs[0]);
      && |acc'| <= |r| && r[..|acc'|] == acc'
      && (forall i :: |acc'| <= i < |r| ==> r[i] in xs[1..] && r[i] !in acc')
    ensures forall i :: |acc| <= i < |r| ==> r[i] in xs && r[i] !in acc
  {
    var acc' := AddUnique(acc, xs[0]);
    forall i | |acc| <= i < |r| ensures r[i] in xs && r[i] !in acc {
      if i < |acc'| {
        assert r[i] == r[..|acc'|][i] == acc'[i] == xs[0];
      } else {
        assert r[i] in xs[1..];
      }
    }
  }

  /** A step keeps the new elements in first-occurrence order of `xs`. */
  lemma StepOrder<T>(acc: seq<T>, xs: seq<T>, r: seq<T>)
    requires xs != []
    requires var acc' := AddUnique(acc, xs[0]);
      && |acc'| <= |r| && r[..|acc'|] == acc'
      && (forall i :: |acc'| <= i < |r| ==> r[i] in xs[1..] && r[i] !in acc')
      && (forall i, j :: |acc'| <= i < j < |r| ==>
            r[i] in xs[1..] && r[j] in xs[1..] && FirstIndex(xs[1..], r[i]) < FirstIndex(xs[1..], r[j]))
    ensures forall i, j :: |acc| <= i < j < |r| ==>
              r[i] in xs && r[j] in xs && FirstIndex(xs, r[i]) < FirstIndex(xs, r[j])
  {
    var acc' := AddUnique(acc, xs[0]);
    var x := xs[0];
    assert x in acc';
    forall i, j | |acc| <= i < j < |r|
      ensures r[i] in xs && r[j] in xs && FirstIndex(xs, r[i]) < FirstIndex(xs, r[j])
    {
      var yj := r[j];
      assert yj in xs[1..] && yj !in acc';
      FirstIndexTail(xs, yj);
      if i < |acc'| {
        assert r[i] == r[..|acc'|][i] == acc'[i] == x;
      } else {
        FirstIndexTail(xs, r[i]);
      }
    }
  }

  /** An element other than the head is found one place later than in the
      tail. */
  lemma FirstIndexTail<T>(xs: seq<T>, y: T)
    requires xs != [] && y in xs[1..] && y != xs[0]
    ensures y in xs && FirstIndex(xs, y) == 1 + FirstIndex(xs[1..], y)
  {
    assert y == xs[1..][FirstIndex(xs[1..], y)];
  }

  /** `Stream.distinct()`: the first occurrence of every element, in order. */
  function Dedup<T(==,!new)>(xs: seq<T>): (r: seq<T>)
    ensures NoDups(r)
    ensures forall x :: x in r <==> x in xs
    ensures forall i, j :: 0 <= i < j < |r| ==> FirstIndex(xs, r[i]) < FirstIndex(xs, r[j])
  {
    DedupInto([], xs)
  }

  /** The keys a sequence of `put` calls writes. */
  ghost function KeysOf<K, V>(kvs: seq<(K, V)>): set<K>
  {
    set j | 0 <= j < |kvs| :: kvs[j].0
  }

  /** `j` is the last position of `kvs` that writes its key. */
  ghost predicate LastWrite<K, V>(kvs: seq<(K, V)>, j: int)
  {
    0 <= j < |kvs| && forall j' :: j < j' < |kvs| ==> kvs[j'].0 != kvs[j].0
  }

  /** Written into an empty map, the keys are exactly those written. */
  lemma PutAllFreshKeys<K, V>(kvs: seq<(K, V)>)
    ensures PutAll(map[], kvs).Keys == KeysOf(kvs)
  {
    var empty: map<K, V> := map[];
    assert empty.Keys + KeysOf(kvs) == KeysOf(kvs);
  }

  /** `HashMap.put` for every pair, front to back: a key written several times
      ends up with the value of its last write; keys never written keep their
      old value. */
  function PutAll<K, V>(m: map<K, V>, kvs: seq<(K, V)>): (r: map<K, V>)
    ensures r.Keys == m.Keys + KeysOf(kvs)
    ensures forall k :: k in m && k !in KeysOf(kvs) ==> r[k] == m[k]
    ensures forall j :: LastWrite(kvs, j) ==> kvs[j].0 in r && r[kvs[j].0] == kvs[j].1
    decreases |kvs|
  {
    if kvs == [] then m
    else
      var r := PutAll(m[kvs[0].0 := kvs[0].1], kvs[1..]);
      KeysOfCons(kvs);
      forall j | LastWrite(kvs, j) ensures kvs[j].0 in r && r[kvs[j].0] == kvs[j].1 {
        LastWriteCons(kvs, j);
      }
      r
  }

  /** The keys of a non-empty write sequence: the first key and the rest. */
  lemma KeysOfCons<K, V>(kvs: seq<(K, V)>)
    requires kvs != []
    ensures KeysOf(kvs) == {kvs[0].0} + KeysOf(kvs[1..])
  {
    forall k | k in KeysOf(kvs) ensures k in {kvs[0].0} + KeysOf(kvs[1..]) {
      var j :| 0 <= j < |kvs| && kvs[j].0 == k;
      if j > 0 { assert kvs[1..][j - 1].0 == k; }
    }
    forall k | k in KeysOf(kvs[1..]) ensures k in KeysOf(kvs) {
      var j :| 0 <= j < |kvs[1..]| && kvs[1..][j].0 == k;
      assert kvs[j + 1].0 == k;
    }
  }

  /** A last write after the first position is a last write of the rest; the
      first position is a last write only when the rest never writes its key. */
  lemma LastWriteCons<K, V>(kvs: seq<(K, V)>, j: int)
    requires LastWrite(kvs, j)
    ensures j > 0 ==> LastWrite(kvs[1..], j - 1)
    ensures j == 0 ==> kvs[0].0 !in KeysOf(kvs[1..])
  {
    if j == 0 {
      forall i | 0 <= i < |kvs[1..]| ensures kvs[1..][i].0 != kvs[0].0 {
        assert kvs[1..][i] == kvs[i + 1];
      }
    }
  }

  /** The elements of `s` satisfying `p`, in order. */
  function Filter<T(!new)>(s: seq<T>, p: T -> bool): (r: seq<T>)
    ensures |r| <= |s|
    ensures forall k :: 0 <= k < |r| ==> p(r[k])
    ensures forall x :: x in r <==> x in s && p(x)
  {
    if s == [] then []
    else (if p(s[0]) then [s[0]] else []) + Filter(s[1..], p)
  }

  /** Filtering keeps every occurrence of a satisfying element and none of
      the others. */
  lemma {:induction false} FilterCount<T(!new)>(s: seq<T>, p: T -> bool, x: T)
    ensures multiset(Filter(s, p))[x] == if p(x) then multiset(s)[x] else 0
    decreases |s|
  {
    if s != [] {
      FilterCount(s[1..], p, x);
      assert s == [s[0]] + s[1..];
      assert multiset(s)[x] == multiset([s[0]])[x] + multiset(s[1..])[x];
      if p(s[0]) {
        assert Filter(s, p) == [s[0]] + Filter(s[1..], p);
        assert multiset(Filter(s, p))[x] == multiset([s[0]])[x] + multiset(Filter(s[1..], p))[x];
      } else {
        assert Filter(s, p) == Filter(s[1..], p);
      }
    }
  }

  lemma FilterCounts<T(!new)>(s: seq<T>, p: T -> bool)
    ensures forall x :: multiset(Filter(s, p))[x] == if p(x) then multiset(s)[x] else 0
  {
    forall x ensures multiset(Filter(s, p))[x] == if p(x) then multiset(s)[x] else 0 {
      FilterCount(s, p, x);
    }
  }

  lemma {:induction false} FilterConcat<T(!new)>(a: seq<T>, b: seq<T>, p: T -> bool)
    ensures Filter(a + b, p) == Filter(a, p) + Filter(b, p)
  {
    if a == [] {
      assert a + b == b;
    } else {
      assert (a + b)[1..] == a[1..] + b;
      FilterConcat(a[1..], b, p);
    }
  }

  /** Every index moved one place on. */
  function Shift(xs: seq<nat>): (r: seq<nat>)
    ensures |r| == |xs| && forall k :: 0 <= k < |xs| ==> r[k] == xs[k] + 1
  {
    seq(|xs|, k requires 0 <= k < |xs| => xs[k] + 1)
  }

  /** The positions of `s` whose element satisfies `p`, in increasing order. */
  function Positions<T>(s: seq<T>, p: T -> bool): seq<nat>
    decreases |s|
  {
    if s == [] then [] else (if p(s[0]) then [0] else []) + Shift(Positions(s[1..], p))
  }

  /** `idx` lists exactly the indices of `s` whose element satisfies `p`,
      strictly increasing. */
  predicate ExactPositions<T>(s: seq<T>, p: T -> bool, idx: seq<nat>)
  {
    && (forall k :: 0 <= k < |idx| ==> idx[k] < |s| && p(s[idx[k]]))
    && (forall i, j :: 0 <= i < j < |idx| ==> idx[i] < idx[j])
    && (forall j :: 0 <= j < |s| && p(s[j]) ==> j in idx)
  }

  /** `f` is `s` read at the indices `idx`, in order. */
  ghost predicate ReadAt<T>(f: seq<T>, s: seq<T>, idx: seq<nat>)
  {
    |f| == |idx| && forall k :: 0 <= k < |idx| ==> idx[k] < |s| && f[k] == s[idx[k]]
  }

  /** The positions are exactly the satisfying indices of `s`, each once and
      strictly increasing, and filtering reads `s` at them. */
  lemma {:induction false} PositionsExact<T(!new)>(s: seq<T>, p: T -> bool)
    ensures ExactPositions(s, p, Positions(s, p))
    ensures ReadAt(Filter(s, p), s, Positions(s, p))
    decreases |s|
  {
    if s != [] {
      PositionsExact(s[1..], p);
      ExactCons(s, p, Positions(s[1..], p));
      ReadAtCons(s, p, Filter(s[1..], p), Positions(s[1..], p));
    }
  }

  lemma ExactCons<T>(s: seq<T>, p: T -> bool, tail: seq<nat>)
    requires s != [] && ExactPositions(s[1..], p, tail)
    ensures ExactPositions(s, p, (if p(s[0]) then [0] else []) + Shift(tail))
  {
    var h: seq<nat> := if p(s[0]) then [0] else [];
    ConsSound(s, p, h, tail);
    ConsIncreasing(h, tail);
    ConsComplete(s, p, h, tail);
  }

  lemma ConsSound<T>(s: seq<T>, p: T -> bool, h: seq<nat>, tail: seq<nat>)
    requires s != [] && h == (if p(s[0]) then [0] else [])
    requires forall k :: 0 <= k < |tail| ==> tail[k] < |s[1..]| && p(s[1..][tail[k]])
    ensures forall k :: 0 <= k < |h + Shift(tail)| ==> (h + Shift(tail))[k] < |s| && p(s[(h + Shift(tail))[k]])
  {
    var r := h + Shift(tail);
    forall k | |h| <= k < |r| ensures r[k] < |s| && p(s[r[k]]) {
      assert r[k] == tail[k - |h|] + 1;
      assert s[1..][tail[k - |h|]] == s[r[k]];
    }
  }

  lemma ConsIncreasing(h: seq<nat>, tail: seq<nat>)
    requires h == [] || h == [0]
    requires forall i, j :: 0 <= i < j < |tail| ==> tail[i] < tail[j]
    ensures forall i, j :: 0 <= i < j < |h + Shift(tail)| ==> (h + Shift(tail))[i] < (h + Shift(tail))[j]
  {
    var r := h + Shift(tail);
    forall i, j | 0 <= i < j < |r| ensures r[i] < r[j] {
      if i >= |h| {
        assert r[i] == tail[i - |h|] + 1 && r[j] == tail[j - |h|] + 1;
      } else {
        assert r[j] == tail[j - |h|] + 1;
      }
    }
  }

  lemma ConsComplete<T>(s: seq<T>, p: T -> bool, h: seq<nat>, tail: seq<nat>)
    requires s != [] && h == (if p(s[0]) then [0] else [])
    requires forall j :: 0 <= j < |s[1..]| && p(s[1..][j]) ==> j in tail
    ensures forall j :: 0 <= j < |s| && p(s[j]) ==> j in h + Shift(tail)
  {
    var r := h + Shift(tail);
    forall j | 0 <= j < |s| && p(s[j]) ensures j in r {
      if j == 0 {
        assert r[0] == 0;
      } else {
        assert s[1..][j - 1] == s[j];
        var m :| 0 <= m < |tail| && tail[m] == j - 1;
        assert r[|h| + m] == j;
      }
    }
  }

  lemma ReadAtCons<T>(s: seq<T>, p: T -> bool, f: seq<T>, tail: seq<nat>)
    requires s != [] && ReadAt(f, s[1..], tail)
    ensures ReadAt((if p(s[0]) then [s[0]] else []) + f, s, (if p(s[0]) then [0] else []) + Shift(tail))
  {
    var h: seq<nat> := if p(s[0]) then [0] else [];
    var g := (if p(s[0]) then [s[0]] else []) + f;
    var r := h + Shift(tail);
    forall k | |h| <= k < |r| ensures r[k] < |s| && g[k] == s[r[k]] {
      assert r[k] == tail[k - |h|] + 1;
      assert g[k] == f[k - |h|];
    }
  }

  /** The lists `f(x)` for the elements `x` of `xs`, concatenated in order. */
  function ConcatMap<A, B>(xs: seq<A>, f: A -> seq<B>): seq<B>
  {
    if xs == [] then [] else f(xs[0]) + ConcatMap(xs[1..], f)
  }

  /** Concatenating over a split list is concatenating the two parts. */
  lemma {:induction false} ConcatMapSplit<A, B>(xs: seq<A>, ys: seq<A>, f: A -> seq<B>)
    ensures ConcatMap(xs + ys, f) == ConcatMap(xs, f) + ConcatMap(ys, f)
    decreases |xs|
  {
    if xs == [] {
      assert xs + ys == ys;
    } else {
      ConcatMapSplit(xs[1..], ys, f);
      assert (xs + ys)[0] == xs[0];
      assert (xs + ys)[1..] == xs[1..] + ys;
      ConcatAssoc(f(xs[0]), ConcatMap(xs[1..], f), ConcatMap(ys, f));
    }
  }

  /** The indices `lo, lo + 1, ..., hi - 1`. */
  function Range(lo: nat, hi: nat): (r: seq<nat>)
    ensures |r| == if lo <= hi then hi - lo else 0
    ensures forall k :: 0 <= k < |r| ==> r[k] == lo + k
    decreases hi - lo
  {
    if lo >= hi then [] else [lo] + Range(lo + 1, hi)
  }

  lemma RangeSplit(lo: nat, mid: nat, hi: nat)
    requires lo <= mid <= hi
    ensures Range(lo, mid) + Range(mid, hi) == Range(lo, hi)
  {
    assert forall k :: 0 <= k < hi - lo ==> (Range(lo, mid) + Range(mid, hi))[k] == lo + k;
  }

  /** A range is its first index followed by two adjacent ranges. */
  lemma RangeHead(lo: nat, mid: nat, hi: nat)
    requires lo < mid <= hi
    ensures [lo] + (Range(lo + 1, mid) + Range(mid, hi)) == Range(lo, hi)
  {
    RangeSplit(lo + 1, mid, hi);
  }

  /** A range lists every index it covers exactly once. */
  lemma RangeExactlyOnce(lo: nat, hi: nat)
    ensures NoDups(Range(lo, hi))
    ensures forall n :: n in Range(lo, hi) <==> lo <= n < hi
  {
    var r := Range(lo, hi);
    forall n | lo <= n < hi ensures n in r {
      assert r[n - lo] == n;
    }
  }
}
