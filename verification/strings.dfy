/** The `java.lang.String` operations the resolution engine relies on, over
    `seq<char>`. */
module Strings {

  /** `s.startsWith(t)`. */
  predicate StartsWith(s: string, t: string)
  {
    |t| <= |s| && s[..|t|] == t
  }

  /** `s.endsWith(t)`. */
  predicate EndsWith(s: string, t: string)
  {
    |t| <= |s| && s[|s| - |t|..] == t
  }

  /** `s.contains(t)`: `t` occurs somewhere in `s`. */
  predicate Contains(s: string, t: string)
    decreases |s|
  {
    if |s| < |t| then false
    else StartsWith(s, t) || (|s| > 0 && Contains(s[1..], t))
  }

  /** Characters `String.trim` removes: every code point up to U+0020. */
  predicate IsTrimmable(c: char)
  {
    c <= ' '
  }

  function TrimStart(s: string): (r: string)
    ensures r == [] || !IsTrimmable(r[0])
    ensures exists k :: 0 <= k <= |s| && r == s[k..] && forall j :: 0 <= j < k ==> IsTrimmable(s[j])
  {
    if |s| > 0 && IsTrimmable(s[0]) then
      var r := TrimStart(s[1..]);
      var k :| 0 <= k <= |s[1..]| && r == s[1..][k..] && forall j :: 0 <= j < k ==> IsTrimmable(s[1..][j]);
      assert r == s[k + 1..];
      r
    else
      assert s == s[0..];
      s
  }

  function TrimEnd(s: string): (r: string)
    ensures r == [] || !IsTrimmable(r[|r| - 1])
    ensures exists k :: 0 <= k <= |s| && r == s[..k] && forall j :: k <= j < |s| ==> IsTrimmable(s[j])
  {
    if |s| > 0 && IsTrimmable(s[|s| - 1]) then
      var r := TrimEnd(s[..|s| - 1]);
      var k :| 0 <= k <= |s| - 1 && r == s[..|s| - 1][..k] && forall j :: k <= j < |s| - 1 ==> IsTrimmable(s[j]);
      assert r == s[..k];
      r
    else
      assert s == s[..|s|];
      s
  }

  /** `s.trim()`: `s` without leading and trailing characters up to U+0020.
      The result neither starts nor ends with such a character; `TrimStart`
      and `TrimEnd` state which characters each end loses. */
  function Trim(s: string): (r: string)
    ensures r == [] || (!IsTrimmable(r[0]) && !IsTrimmable(r[|r| - 1]))
    ensures |r| <= |s|
  {
    var t := TrimStart(s);
    TrimEndKeepsHead(t);
    TrimEnd(t)
  }

  /** Trimming the end leaves the first character where it was. */
  lemma TrimEndKeepsHead(t: string)
    ensures TrimEnd(t) != [] ==> TrimEnd(t)[0] == t[0]
    ensures |TrimEnd(t)| <= |t|
  {
    var r := TrimEnd(t);
    var k :| 0 <= k <= |t| && r == t[..k] && forall j :: k <= j < |t| ==> IsTrimmable(t[j]);
  }

  /** Trimming an already trimmed string changes nothing. */
  lemma TrimIdempotent(s: string)
    ensures Trim(Trim(s)) == Trim(s)
  {
    var r := Trim(s);
    if r != [] {
      assert TrimStart(r) == r;
      assert TrimEnd(r) == r;
    }
  }

  /** `s.trim().equals("")`. */
  predicate IsBlank(s: string)
  {
    Trim(s) == []
  }

  /** `s.replace(t, v)` for a non-empty target: every occurrence of `t`
      found scanning left to right, without overlaps, is replaced by `v`. */
  function ReplaceAll(s: string, t: string, v: string): (r: string)
    requires |t| > 0
    ensures |v| == |t| ==> |r| == |s|
    decreases |s|
  {
    if |s| < |t| then s
    else if StartsWith(s, t) then v + ReplaceAll(s[|t|..], t, v)
    else [s[0]] + ReplaceAll(s[1..], t, v)
  }

  /** Replacing a target that does not occur leaves the string unchanged. */
  lemma {:induction false} ReplaceAbsent(s: string, t: string, v: string)
    requires |t| > 0
    requires !Contains(s, t)
    ensures ReplaceAll(s, t, v) == s
    decreases |s|
  {
    if |s| >= |t| {
      ReplaceAbsent(s[1..], t, v);
      assert s == [s[0]] + s[1..];
    }
  }

  /** Replacing a target by itself leaves the string unchanged. */
  lemma {:induction false} ReplaceBySelf(s: string, t: string)
    requires |t| > 0
    ensures ReplaceAll(s, t, t) == s
    decreases |s|
  {
    if |s| >= |t| {
      if StartsWith(s, t) {
        ReplaceBySelf(s[|t|..], t);
        assert s == s[..|t|] + s[|t|..];
      } else {
        ReplaceBySelf(s[1..], t);
        assert s == [s[0]] + s[1..];
      }
    }
  }

  /** A string that is exactly the target is replaced as a whole. */
  lemma ReplaceWhole(t: string, v: string)
    requires |t| > 0
    ensures ReplaceAll(t, t, v) == v
  {
    assert t[|t|..] == [];
    assert v + [] == v;
  }
}
