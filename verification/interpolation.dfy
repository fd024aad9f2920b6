/** `${name}` interpolation as `POM.interpolateString` performs it: the
    tokens are the matches of the non-greedy pattern `\$\{(.*?)}` in the
    original string, found left to right without overlaps; for each token in
    turn whose trimmed name has a value, every literal occurrence of the whole
    token in the string as rewritten so far is replaced by that value. */
module Interpolation {
  import opened Collections
  import opened Strings

  /** Characters the pattern's `.` does not match (the pattern is compiled
      without DOTALL). */
  predicate IsLineTerminator(c: char)
  {
    c == '\n' || c == '\r' || c == '\U{85}' || c == '\U{2028}' || c == '\U{2029}'
  }

  /** Position of the `}` closing a token whose name starts at `q`: the first
      `}` at or after `q`, provided no line terminator comes before it. */
  function CloseFrom(s: string, q: nat): (r: Option<nat>)
    ensures r.Some? ==> q <= r.value < |s| && s[r.value] == '}'
    ensures r.Some? ==> forall j :: q <= j < r.value ==> s[j] != '}' && !IsLineTerminator(s[j])
    ensures r.None? ==> forall e :: q <= e < |s| && s[e] == '}' ==>
              exists j :: q <= j < e && IsLineTerminator(s[j])
    decreases |s| - q
  {
    if q >= |s| then None
    else if s[q] == '}' then Some(q)
    else if IsLineTerminator(s[q]) then None
    else CloseFrom(s, q + 1)
  }

  /** End (exclusive) of the match of `\$\{(.*?)}` that starts at `p`, if
      there is one. */
  function MatchAt(s: string, p: nat): (r: Option<nat>)
    ensures r.Some? ==> p + 3 <= r.value <= |s| && s[p] == '$' && s[p + 1] == '{'
  {
    if p + 1 < |s| && s[p] == '$' && s[p + 1] == '{' then
      match CloseFrom(s, p + 2)
      case Some(q) => Some(q + 1)
      case None => None
    else None
  }

  /** A match of the pattern starts at `q`. */
  predicate IsMatchStart(s: string, q: nat)
  {
    MatchAt(s, q).Some?
  }

  /** A match: `s[start..end]` is the whole token `${name}`. */
  datatype Span = Span(start: nat, end: nat)

  /** `Matcher.find` repeated from position `p`: each match starts at a match
      position, the matches are ordered and disjoint, and every position at
      which a match could start lies inside one of them. */
  function Scan(s: string, p: nat): (r: seq<Span>)
    ensures forall k :: 0 <= k < |r| ==> p <= r[k].start && MatchAt(s, r[k].start) == Some(r[k].end)
    ensures forall k :: 0 <= k < |r| - 1 ==> r[k].end <= r[k + 1].start
    ensures forall q :: p <= q < |s| && IsMatchStart(s, q) ==>
              exists k :: 0 <= k < |r| && r[k].start <= q < r[k].end
    decreases |s| - p
  {
    if p >= |s| then []
    else
      match MatchAt(s, p)
      case Some(e) =>
        var rest := Scan(s, e);
        ScanCovers(s, p, e, rest);
        [Span(p, e)] + rest
      case None =>
        Scan(s, p + 1)
  }

  /** Positions before the first match end are covered by it; later ones
      are covered by the rest of the scan. */
  lemma ScanCovers(s: string, p: nat, e: nat, rest: seq<Span>)
    requires p < e
    requires forall q :: e <= q < |s| && IsMatchStart(s, q) ==>
               exists k :: 0 <= k < |rest| && rest[k].start <= q < rest[k].end
    ensures var r := [Span(p, e)] + rest;
      forall q :: p <= q < |s| && IsMatchStart(s, q) ==>
        exists k :: 0 <= k < |r| && r[k].start <= q < r[k].end
  {
    var r := [Span(p, e)] + rest;
    forall q | p <= q < |s| && IsMatchStart(s, q)
      ensures exists k :: 0 <= k < |r| && r[k].start <= q < r[k].end
    {
      if q < e {
        assert r[0].start <= q < r[0].end;
      } else {
        var k :| 0 <= k < |rest| && rest[k].start <= q < rest[k].end;
        assert r[k + 1] == rest[k];
      }
    }
  }

  /** The matches of the whole string. */
  function Tokens(s: string): seq<Span>
  {
    Scan(s, 0)
  }

  /** `matcher.group(0)`: the whole token text. */
  function TokenText(s: string, sp: Span): (r: string)
    requires sp.start + 3 <= sp.end <= |s|
    ensures |r| >= 3
  {
    s[sp.start..sp.end]
  }

  /** `matcher.group(1)`: the name between `${` and `}`. */
  function TokenName(s: string, sp: Span): string
    requires sp.start + 3 <= sp.end <= |s|
  {
    s[sp.start + 2..sp.end - 1]
  }

  /** The texts of the given spans, in order. */
  function TextsOf(s: string, toks: seq<Span>): (r: seq<string>)
    requires forall k :: 0 <= k < |toks| ==> toks[k].start + 3 <= toks[k].end <= |s|
    ensures |r| == |toks|
    ensures forall k :: 0 <= k < |r| ==> |r[k]| >= 3 && r[k] == TokenText(s, toks[k])
  {
    if toks == [] then [] else [TokenText(s, toks[0])] + TextsOf(s, toks[1..])
  }

  /** The texts of all tokens of `s`, in order. */
  function TokenTexts(s: string): (r: seq<string>)
    ensures |r| == |Tokens(s)|
    ensures forall k :: 0 <= k < |r| ==> |r[k]| >= 3 && r[k] == TokenText(s, Tokens(s)[k])
  {
    TextsOf(s, Tokens(s))
  }

  /** The name inside a token text `${name}`. */
  function NameOf(t: string): string
    requires |t| >= 3
  {
    t[2..|t| - 1]
  }

  /** The value `findPropertyValue` gives the trimmed name of token text
      `t`, if any. */
  function ValueOf(t: string, lookup: string -> Option<string>): Option<string>
    requires |t| >= 3
  {
    lookup(Trim(NameOf(t)))
  }

  /** The substitution loop: for each token text in turn, look up its trimmed
      name and, when a value exists, replace every occurrence of the text in
      the current string. When no token resolves, nothing changes. */
  function ApplyTokens(cur: string, toks: seq<string>, lookup: string -> Option<string>): (r: string)
    requires forall k :: 0 <= k < |toks| ==> |toks[k]| >= 3
    ensures (forall k :: 0 <= k < |toks| ==> ValueOf(toks[k], lookup).None?) ==> r == cur
    decreases |toks|
  {
    if toks == [] then cur
    else
      var t := toks[0];
      var next := match ValueOf(t, lookup)
        case Some(v) => ReplaceAll(cur, t, v)
        case None => cur;
      ApplyTokens(next, toks[1..], lookup)
  }

  /** `interpolateString(s, pom)`, with the property lookup as a parameter.
      When every `$` of `s` opens a token and no value found holds a `$`,
      the result is `s` with each token replaced by its value where it has
      one and left as it is where it has none. */
  function Interpolate(s: string, lookup: string -> Option<string>): (r: string)
    ensures '$' !in s ==> r == s
    ensures DollarsOpenTokens(s) && PlainValues(s, lookup) ==> r == Render(s, lookup)
  {
    ApplyRenders(s, lookup);
    if '$' !in s then s else ApplyTokens(s, TokenTexts(s), lookup)
  }

  /** Every `$` of `s` is where a token starts: none stands alone and none
      lies inside a token's name. */
  predicate DollarsOpenTokens(s: string)
  {
    DollarsFrom(s, Tokens(s), 0)
  }

  /** Every `$` of `s` at or after `pos` starts one of `toks`. */
  predicate DollarsFrom(s: string, toks: seq<Span>, pos: nat)
  {
    forall j :: pos <= j < |s| && s[j] == '$' ==> exists k :: 0 <= k < |toks| && toks[k].start == j
  }

  /** No value found for a token of `s` holds a `$`. */
  predicate PlainValues(s: string, lookup: string -> Option<string>)
  {
    forall k :: 0 <= k < |Tokens(s)| && lookup(Trim(TokenName(s, Tokens(s)[k]))).Some? ==>
      '$' !in lookup(Trim(TokenName(s, Tokens(s)[k]))).value
  }

  /** The spans `toks` are matches of the pattern in `s`, in order and
      disjoint, all at or after `pos`. */
  predicate Ordered(s: string, toks: seq<Span>, pos: nat)
    decreases |toks|
  {
    if toks == [] then pos <= |s|
    else pos <= toks[0].start && MatchAt(s, toks[0].start) == Some(toks[0].end) && Ordered(s, toks[1..], toks[0].end)
  }

  /** Every span of an ordered list lies inside `s`. */
  predicate Bounded(s: string, toks: seq<Span>)
  {
    forall k :: 0 <= k < |toks| ==> toks[k].start + 3 <= toks[k].end <= |s|
  }

  /** The reference reading of interpolation: the text between tokens is
      copied, and each token becomes the value of its trimmed name, or stays
      as it is when the name has none. */
  function Render(s: string, lookup: string -> Option<string>): string
  {
    ScanOrdered(s, 0);
    RenderFrom(s, Tokens(s), 0, lookup)
  }

  function RenderFrom(s: string, toks: seq<Span>, pos: nat, lookup: string -> Option<string>): string
    requires Ordered(s, toks, pos)
    decreases |toks|
  {
    if toks == [] then s[pos..]
    else
      var t := toks[0];
      var shown := match lookup(Trim(TokenName(s, t)))
        case Some(v) => v
        case None => TokenText(s, t);
      s[pos..t.start] + shown + RenderFrom(s, toks[1..], t.end, lookup)
  }

  /** The scan lists its matches in order from where it starts. */
  lemma {:induction false} ScanOrdered(s: string, p: nat)
    requires p <= |s|
    ensures Ordered(s, Scan(s, p), p)
    decreases |s| - p
  {
    if p < |s| {
      match MatchAt(s, p)
      case Some(e) =>
        ScanOrdered(s, e);
        var r := Scan(s, p);
        assert r == [Span(p, e)] + Scan(s, e);
        assert r[1..] == Scan(s, e);
      case None =>
        ScanOrdered(s, p + 1);
    }
  }

  /** Every span of an ordered list starts at or after `pos` and lies
      inside `s`. */
  lemma {:induction false} OrderedStarts(s: string, toks: seq<Span>, pos: nat)
    requires Ordered(s, toks, pos)
    ensures forall k :: 0 <= k < |toks| ==> pos <= toks[k].start
    ensures Bounded(s, toks)
    decreases |toks|
  {
    if toks != [] {
      OrderedStarts(s, toks[1..], toks[0].end);
      assert forall k :: 1 <= k < |toks| ==> toks[k] == toks[1..][k - 1];
    }
  }

  /** The string under substitution, cut into text that stays as it is and
      token texts not replaced yet. */
  datatype Piece = Text(text: string) | Token(text: string)

  function Join(ps: seq<Piece>): string
    decreases |ps|
  {
    if ps == [] then [] else ps[0].text + Join(ps[1..])
  }

  /** A token text whose only `$` is its first character: `${`, a name
      without `}` or `$`, then `}`. */
  predicate IsTokenText(t: string)
  {
    |t| >= 3 && t[0] == '$' && t[1] == '{' && t[|t| - 1] == '}' &&
    (forall j :: 1 <= j < |t| ==> t[j] != '$') &&
    (forall j :: 2 <= j < |t| - 1 ==> t[j] != '}')
  }

  /** Only token pieces hold a `$`, each at its start. */
  predicate Clean(ps: seq<Piece>)
  {
    forall k :: 0 <= k < |ps| ==>
      (ps[k].Text? ==> '$' !in ps[k].text) && (ps[k].Token? ==> IsTokenText(ps[k].text))
  }

  /** `s` from `pos` on, cut at the spans `toks`. */
  function Split(s: string, toks: seq<Span>, pos: nat): (r: seq<Piece>)
    requires Ordered(s, toks, pos)
    decreases |toks|
  {
    if toks == [] then [Text(s[pos..])]
    else
      [Text(s[pos..toks[0].start]), Token(TokenText(s, toks[0]))] + Split(s, toks[1..], toks[0].end)
  }

  /** A token piece whose name has a value becomes that value. */
  function Settle(p: Piece, lookup: string -> Option<string>): Piece
  {
    if p.Token? && |p.text| >= 3 && ValueOf(p.text, lookup).Some? then Text(ValueOf(p.text, lookup).value) else p
  }

  function SettleAll(ps: seq<Piece>, lookup: string -> Option<string>): (r: seq<Piece>)
    ensures |r| == |ps| && forall k :: 0 <= k < |ps| ==> r[k] == Settle(ps[k], lookup)
    decreases |ps|
  {
    if ps == [] then [] else [Settle(ps[0], lookup)] + SettleAll(ps[1..], lookup)
  }

  /** The pieces after `replace(t, v)`: each token piece `t` becomes `v`. */
  function Substitute(ps: seq<Piece>, t: string, v: string): (r: seq<Piece>)
    ensures |r| == |ps| && forall k :: 0 <= k < |ps| ==> r[k] == if ps[k] == Token(t) then Text(v) else ps[k]
    decreases |ps|
  {
    if ps == [] then [] else [if ps[0] == Token(t) then Text(v) else ps[0]] + Substitute(ps[1..], t, v)
  }

  lemma {:induction false} JoinConcat(xs: seq<Piece>, ys: seq<Piece>)
    ensures Join(xs + ys) == Join(xs) + Join(ys)
    decreases |xs|
  {
    if xs != [] {
      assert (xs + ys)[0] == xs[0];
      assert (xs + ys)[1..] == xs[1..] + ys;
      JoinConcat(xs[1..], ys);
    } else {
      assert xs + ys == ys;
    }
  }

  /** Text without `$` holds no occurrence of a target starting with `$`,
      so the replacement copies it and goes on after it. */
  lemma {:induction false} SkipText(g: string, rest: string, t: string, v: string)
    requires '$' !in g && |t| > 0 && t[0] == '$'
    ensures ReplaceAll(g + rest, t, v) == g + ReplaceAll(rest, t, v)
    decreases |g|
  {
    if g != [] {
      var s := g + rest;
      assert g == [g[0]] + g[1..];
      assert s[0] == g[0] != t[0];
      if |s| >= |t| {
        assert s[..|t|][0] == s[0];
        assert !StartsWith(s, t);
        assert s[1..] == g[1..] + rest;
        SkipText(g[1..], rest, t, v);
        assert ReplaceAll(s, t, v) == [s[0]] + ReplaceAll(s[1..], t, v);
      } else {
        assert ReplaceAll(rest, t, v) == rest;
      }
    } else {
      assert g + rest == rest;
    }
  }

  /** The target at the front is replaced, and the scan goes on after it. */
  lemma ReplaceFront(t: string, rest: string, v: string)
    requires |t| > 0
    ensures ReplaceAll(t + rest, t, v) == v + ReplaceAll(rest, t, v)
  {
    var s := t + rest;
    assert s[..|t|] == t;
    assert s[|t|..] == rest;
  }

  /** A different token text never starts with the target: the first `}`
      of each closes it. */
  lemma OtherTokenNotPrefix(u: string, rest: string, t: string)
    requires IsTokenText(u) && IsTokenText(t) && u != t
    ensures !StartsWith(u + rest, t)
  {
    var s := u + rest;
    if |t| <= |s| {
      if |t| < |u| {
        assert s[..|t|][|t| - 1] == u[|t| - 1] != '}';
      } else if |t| > |u| {
        assert s[..|t|][|u| - 1] == u[|u| - 1] != t[|u| - 1];
      } else {
        assert s[..|t|] == u;
      }
    }
  }

  /** A token text other than the target is copied as it is. */
  lemma OtherTokenKept(u: string, rest: string, t: string, v: string)
    requires IsTokenText(u) && IsTokenText(t) && u != t
    ensures ReplaceAll(u + rest, t, v) == u + ReplaceAll(rest, t, v)
  {
    var s := u + rest;
    if |s| >= |t| {
      OtherTokenNotPrefix(u, rest, t);
      TokenTailPlain(u);
      SkipText(u[1..], rest, t, v);
      assert s[0] == u[0] && s[1..] == u[1..] + rest;
      assert ReplaceAll(s, t, v) == [s[0]] + ReplaceAll(s[1..], t, v);
    } else {
      assert ReplaceAll(rest, t, v) == rest;
    }
  }

  /** After its leading `$`, a token text holds no `$`. */
  lemma TokenTailPlain(u: string)
    requires IsTokenText(u)
    ensures u == [u[0]] + u[1..] && '$' !in u[1..]
  {
    forall j | 0 <= j < |u[1..]| ensures u[1..][j] != '$' {
      assert u[1..][j] == u[j + 1];
    }
  }

  /** `replace(t, v)` on clean pieces replaces exactly the token pieces `t`. */
  lemma {:induction false} ReplaceJoin(ps: seq<Piece>, t: string, v: string)
    requires Clean(ps) && IsTokenText(t)
    ensures ReplaceAll(Join(ps), t, v) == Join(Substitute(ps, t, v))
    decreases |ps|
  {
    if ps != [] {
      var p := ps[0];
      var rest := Join(ps[1..]);
      assert Clean(ps[1..]) by {
        forall k | 0 <= k < |ps[1..]| ensures ps[1..][k] == ps[k + 1] { }
      }
      ReplaceJoin(ps[1..], t, v);
      var sub := Substitute(ps, t, v);
      assert sub[1..] == Substitute(ps[1..], t, v);
      assert Join(sub) == sub[0].text + Join(sub[1..]);
      if p.Text? {
        SkipText(p.text, rest, t, v);
      } else if p.text == t {
        ReplaceFront(t, rest, v);
      } else {
        OtherTokenKept(p.text, rest, t, v);
      }
    }
  }

  /** Settling a token that is already replaced by its own value changes
      nothing; settling nothing where no token resolves. */
  lemma SettleSubstitute(ps: seq<Piece>, t: string, v: string, lookup: string -> Option<string>)
    requires |t| >= 3 && ValueOf(t, lookup) == Some(v)
    ensures SettleAll(Substitute(ps, t, v), lookup) == SettleAll(ps, lookup)
  {
    var a := SettleAll(Substitute(ps, t, v), lookup);
    var b := SettleAll(ps, lookup);
    forall k | 0 <= k < |ps| ensures a[k] == b[k] { }
  }

  lemma SettleNone(ps: seq<Piece>, lookup: string -> Option<string>)
    requires forall k :: 0 <= k < |ps| ==> Settle(ps[k], lookup) == ps[k]
    ensures SettleAll(ps, lookup) == ps
  {
  }

  /** Every token text to process is well formed and any value found for
      it holds no `$`. */
  predicate ReadyTexts(texts: seq<string>, lookup: string -> Option<string>)
  {
    forall k :: 0 <= k < |texts| ==>
      IsTokenText(texts[k]) && (ValueOf(texts[k], lookup).Some? ==> '$' !in ValueOf(texts[k], lookup).value)
  }

  /** Every token piece whose name has a value is among `texts`. */
  predicate Listed(ps: seq<Piece>, texts: seq<string>, lookup: string -> Option<string>)
  {
    forall k :: 0 <= k < |ps| && ps[k].Token? && |ps[k].text| >= 3 && ValueOf(ps[k].text, lookup).Some? ==>
      ps[k].text in texts
  }

  /** The substitution loop on clean pieces, when every token piece that
      resolves is among the texts still to process and no value holds a `$`,
      settles every piece. */
  lemma {:induction false} ApplyPieces(ps: seq<Piece>, texts: seq<string>, lookup: string -> Option<string>)
    requires Clean(ps) && Listed(ps, texts, lookup)
    requires forall k :: 0 <= k < |texts| ==> |texts[k]| >= 3
    requires ReadyTexts(texts, lookup)
    ensures ApplyTokens(Join(ps), texts, lookup) == Join(SettleAll(ps, lookup))
    decreases |texts|
  {
    if texts == [] {
      SettleNone(ps, lookup);
    } else {
      StepPieces(ps, texts, lookup);
      ReadyTail(texts, lookup);
      ApplyPieces(NextPieces(ps, texts[0], lookup), texts[1..], lookup);
    }
  }

  /** The pieces after one round of the loop. */
  function NextPieces(ps: seq<Piece>, t: string, lookup: string -> Option<string>): seq<Piece>
    requires |t| >= 3
  {
    match ValueOf(t, lookup)
    case Some(v) => Substitute(ps, t, v)
    case None => ps
  }

  /** One round of the loop on the joined pieces is the join of the next
      pieces, which stay clean, settle alike and resolve only among the
      remaining texts. */
  lemma StepPieces(ps: seq<Piece>, texts: seq<string>, lookup: string -> Option<string>)
    requires texts != [] && Clean(ps) && Listed(ps, texts, lookup) && ReadyTexts(texts, lookup)
    ensures ApplyTokens(Join(ps), texts, lookup) == ApplyTokens(Join(NextPieces(ps, texts[0], lookup)), texts[1..], lookup)
    ensures Clean(NextPieces(ps, texts[0], lookup))
    ensures Listed(NextPieces(ps, texts[0], lookup), texts[1..], lookup)
    ensures SettleAll(NextPieces(ps, texts[0], lookup), lookup) == SettleAll(ps, lookup)
  {
    var t := texts[0];
    if ValueOf(t, lookup).Some? {
      var v := ValueOf(t, lookup).value;
      ReplaceJoin(ps, t, v);
      SubstituteStep(ps, texts, lookup);
      SettleSubstitute(ps, t, v, lookup);
    } else {
      UnresolvedStep(ps, texts, lookup);
    }
  }

  lemma ReadyTail(texts: seq<string>, lookup: string -> Option<string>)
    requires texts != [] && ReadyTexts(texts, lookup)
    ensures forall k :: 0 <= k < |texts[1..]| ==> |texts[1..][k]| >= 3
    ensures ReadyTexts(texts[1..], lookup)
  {
    assert forall k :: 0 <= k < |texts| - 1 ==> texts[1..][k] == texts[k + 1];
  }

  /** After replacing the first text by its value, the pieces stay clean and
      what still resolves is among the remaining texts. */
  lemma SubstituteStep(ps: seq<Piece>, texts: seq<string>, lookup: string -> Option<string>)
    requires texts != [] && Clean(ps) && Listed(ps, texts, lookup) && ReadyTexts(texts, lookup)
    requires ValueOf(texts[0], lookup).Some?
    ensures Clean(Substitute(ps, texts[0], ValueOf(texts[0], lookup).value))
    ensures Listed(Substitute(ps, texts[0], ValueOf(texts[0], lookup).value), texts[1..], lookup)
  {
    var t := texts[0];
    var ps' := Substitute(ps, t, ValueOf(t, lookup).value);
    forall k | 0 <= k < |ps'| && ps'[k].Token? && |ps'[k].text| >= 3 && ValueOf(ps'[k].text, lookup).Some?
      ensures ps'[k].text in texts[1..]
    {
      assert ps'[k] == ps[k] && ps[k].text != t;
      InTail(ps[k].text, texts);
    }
  }

  /** A first text without a value is not a resolving token piece. */
  lemma UnresolvedStep(ps: seq<Piece>, texts: seq<string>, lookup: string -> Option<string>)
    requires texts != [] && |texts[0]| >= 3 && Listed(ps, texts, lookup) && ValueOf(texts[0], lookup).None?
    ensures Listed(ps, texts[1..], lookup)
  {
    forall k | 0 <= k < |ps| && ps[k].Token? && |ps[k].text| >= 3 && ValueOf(ps[k].text, lookup).Some?
      ensures ps[k].text in texts[1..]
    {
      assert ps[k].text != texts[0];
      InTail(ps[k].text, texts);
    }
  }

  lemma InTail<T>(x: T, xs: seq<T>)
    requires x in xs && x != xs[0]
    ensures x in xs[1..]
  {
    var i :| 0 <= i < |xs| && xs[i] == x;
    assert xs[1..][i - 1] == x;
  }

  lemma JoinPair(a: Piece, b: Piece)
    ensures Join([a, b]) == a.text + b.text
  {
    assert [a, b][1..] == [b];
    JoinOne(b);
  }

  lemma SettleConcat(xs: seq<Piece>, ys: seq<Piece>, lookup: string -> Option<string>)
    ensures SettleAll(xs + ys, lookup) == SettleAll(xs, lookup) + SettleAll(ys, lookup)
  {
    var a := SettleAll(xs + ys, lookup);
    var b := SettleAll(xs, lookup) + SettleAll(ys, lookup);
    forall k | 0 <= k < |a| ensures a[k] == b[k] {
      if k >= |xs| {
        assert (xs + ys)[k] == ys[k - |xs|];
      }
    }
  }

  /** The pieces of `s` from `pos` join back to `s[pos..]`. */
  lemma {:induction false} JoinSplit(s: string, toks: seq<Span>, pos: nat)
    requires Ordered(s, toks, pos)
    ensures Join(Split(s, toks, pos)) == s[pos..]
    decreases |toks|
  {
    if toks == [] {
      JoinOne(Text(s[pos..]));
    } else {
      var t := toks[0];
      var head := [Text(s[pos..t.start]), Token(TokenText(s, t))];
      JoinSplit(s, toks[1..], t.end);
      JoinConcat(head, Split(s, toks[1..], t.end));
      JoinPair(head[0], head[1]);
      SliceThree(s, pos, t.start, t.end);
    }
  }

  lemma JoinOne(p: Piece)
    ensures Join([p]) == p.text
  {
    assert [p][1..] == [];
  }

  lemma SliceThree(s: string, a: nat, b: nat, c: nat)
    requires a <= b <= c <= |s|
    ensures s[a..] == s[a..b] + s[b..c] + s[c..]
  {
  }

  /** Settling the pieces of `s` is the reference rendering. */
  lemma {:induction false} SettleSplit(s: string, toks: seq<Span>, pos: nat, lookup: string -> Option<string>)
    requires Ordered(s, toks, pos)
    ensures Join(SettleAll(Split(s, toks, pos), lookup)) == RenderFrom(s, toks, pos, lookup)
    decreases |toks|
  {
    var ps := Split(s, toks, pos);
    if toks == [] {
      assert SettleAll(ps, lookup) == [Text(s[pos..])];
      JoinOne(Text(s[pos..]));
    } else {
      var t := toks[0];
      var head := [Text(s[pos..t.start]), Token(TokenText(s, t))];
      var tail := Split(s, toks[1..], t.end);
      SettleSplit(s, toks[1..], t.end, lookup);
      var sh := SettleAll(head, lookup);
      SettleConcat(head, tail, lookup);
      JoinConcat(sh, SettleAll(tail, lookup));
      JoinPair(sh[0], sh[1]);
      SettleToken(s, t, lookup);
    }
  }

  /** A token piece settles to what the reference rendering shows for it. */
  lemma SettleToken(s: string, t: Span, lookup: string -> Option<string>)
    requires t.start + 3 <= t.end <= |s|
    ensures Settle(Token(TokenText(s, t)), lookup).text ==
      match lookup(Trim(TokenName(s, t)))
      case Some(v) => v
      case None => TokenText(s, t)
  {
    NameOfText(s, t);
  }

  /** Every token piece of `s` is one of the token texts the loop visits. */
  lemma {:induction false} SplitTokensListed(s: string, toks: seq<Span>, pos: nat)
    requires Ordered(s, toks, pos) && Bounded(s, toks)
    ensures forall k :: 0 <= k < |Split(s, toks, pos)| && Split(s, toks, pos)[k].Token? ==>
              Split(s, toks, pos)[k].text in TextsOf(s, toks)
    decreases |toks|
  {
    if toks != [] {
      var t := toks[0];
      SplitTokensListed(s, toks[1..], t.end);
      var tail := Split(s, toks[1..], t.end);
      var ps := Split(s, toks, pos);
      assert forall k :: 2 <= k < |ps| ==> ps[k] == tail[k - 2];
      assert TextsOf(s, toks) == [TokenText(s, t)] + TextsOf(s, toks[1..]);
    }
  }

  /** The text before the first span holds no `$`, the first span is a
      token text, and every later `$` opens a later span. */
  lemma HeadShape(s: string, toks: seq<Span>, pos: nat)
    requires toks != [] && Ordered(s, toks, pos) && DollarsFrom(s, toks, pos)
    ensures '$' !in s[pos..toks[0].start]
    ensures IsTokenText(TokenText(s, toks[0]))
    ensures DollarsFrom(s, toks[1..], toks[0].end)
  {
    var t := toks[0];
    OrderedStarts(s, toks, pos);
    OrderedStarts(s, toks[1..], t.end);
    assert forall k :: 1 <= k < |toks| ==> toks[k] == toks[1..][k - 1];
    GapPlain(s, toks, pos);
    TokenTextShape(s, t, toks);
    forall j | t.end <= j < |s| && s[j] == '$'
      ensures exists k :: 0 <= k < |toks[1..]| && toks[1..][k].start == j
    {
      var k :| 0 <= k < |toks| && toks[k].start == j;
      assert toks[1..][k - 1].start == j;
    }
  }

  lemma GapPlain(s: string, toks: seq<Span>, pos: nat)
    requires toks != [] && pos <= toks[0].start <= |s| && DollarsFrom(s, toks, pos)
    requires forall k :: 0 <= k < |toks| ==> toks[0].start <= toks[k].start
    ensures '$' !in s[pos..toks[0].start]
  {
    var g := s[pos..toks[0].start];
    forall j | 0 <= j < |g| ensures g[j] != '$' {
      assert g[j] == s[pos + j];
    }
  }

  lemma CleanCons(g: string, u: string, tail: seq<Piece>)
    requires '$' !in g && IsTokenText(u) && Clean(tail)
    ensures Clean([Text(g), Token(u)] + tail)
  {
    var ps := [Text(g), Token(u)] + tail;
    assert forall k :: 2 <= k < |ps| ==> ps[k] == tail[k - 2];
  }

  /** The pieces of `s` are clean when every `$` opens a token, and then
      every token text is well formed. */
  lemma {:induction false} SplitClean(s: string, toks: seq<Span>, pos: nat)
    requires Ordered(s, toks, pos) && Bounded(s, toks) && DollarsFrom(s, toks, pos)
    ensures Clean(Split(s, toks, pos))
    ensures forall k :: 0 <= k < |toks| ==> IsTokenText(TokenText(s, toks[k]))
    decreases |toks|
  {
    if toks == [] {
      SuffixPlain(s, pos);
    } else {
      var t := toks[0];
      HeadShape(s, toks, pos);
      SplitClean(s, toks[1..], t.end);
      CleanCons(s[pos..t.start], TokenText(s, t), Split(s, toks[1..], t.end));
      assert forall k :: 1 <= k < |toks| ==> toks[k] == toks[1..][k - 1];
    }
  }

  lemma SuffixPlain(s: string, pos: nat)
    requires pos <= |s| && forall j :: pos <= j < |s| ==> s[j] != '$'
    ensures '$' !in s[pos..]
  {
    forall j | 0 <= j < |s[pos..]| ensures s[pos..][j] != '$' {
      assert s[pos..][j] == s[pos + j];
    }
  }

  /** The text of the first span is a token text when every `$` from its
      start opens one of the spans. */
  lemma TokenTextShape(s: string, t: Span, toks: seq<Span>)
    requires toks != [] && t == toks[0] && MatchAt(s, t.start) == Some(t.end)
    requires forall k :: 1 <= k < |toks| ==> t.end <= toks[k].start
    requires forall j :: t.start <= j < |s| && s[j] == '$' ==> exists k :: 0 <= k < |toks| && toks[k].start == j
    ensures IsTokenText(TokenText(s, t))
  {
    var u := TokenText(s, t);
    assert forall j :: 0 <= j < |u| ==> u[j] == s[t.start + j];
    var c := CloseFrom(s, t.start + 2);
    assert c == Some(t.end - 1);
    forall j | 1 <= j < |u| ensures u[j] != '$' {
      assert forall k :: 0 <= k < |toks| ==> toks[k].start != t.start + j;
    }
  }

  /** Interpolation renders the string when every `$` opens a token and no
      value found holds a `$`; a string without `$` renders as itself. */
  lemma ApplyRenders(s: string, lookup: string -> Option<string>)
    ensures '$' !in s ==> Render(s, lookup) == s
    ensures '$' in s && DollarsOpenTokens(s) && PlainValues(s, lookup) ==>
              ApplyTokens(s, TokenTexts(s), lookup) == Render(s, lookup)
  {
    var toks := Tokens(s);
    ScanOrdered(s, 0);
    TokenNeedsDollar(s);
    if '$' !in s {
      assert toks == [];
      assert s[0..] == s;
    } else if DollarsOpenTokens(s) && PlainValues(s, lookup) {
      ApplyRendersTokens(s, lookup);
    }
  }

  lemma ApplyRendersTokens(s: string, lookup: string -> Option<string>)
    requires DollarsOpenTokens(s) && PlainValues(s, lookup)
    ensures Ordered(s, Tokens(s), 0)
    ensures ApplyTokens(s, TokenTexts(s), lookup) == RenderFrom(s, Tokens(s), 0, lookup)
  {
    LoopPremises(s, lookup);
    var ps := Split(s, Tokens(s), 0);
    JoinSplit(s, Tokens(s), 0);
    assert s[0..] == s;
    ApplyPieces(ps, TokenTexts(s), lookup);
    SettleSplit(s, Tokens(s), 0, lookup);
  }

  /** The pieces of a string whose every `$` opens a token, and its token
      texts, meet what the substitution loop needs to settle every piece. */
  lemma LoopPremises(s: string, lookup: string -> Option<string>)
    requires DollarsOpenTokens(s) && PlainValues(s, lookup)
    ensures Ordered(s, Tokens(s), 0)
    ensures Clean(Split(s, Tokens(s), 0))
    ensures ReadyTexts(TokenTexts(s), lookup)
    ensures Listed(Split(s, Tokens(s), 0), TokenTexts(s), lookup)
  {
    var toks := Tokens(s);
    ScanOrdered(s, 0);
    OrderedStarts(s, toks, 0);
    SplitClean(s, toks, 0);
    SplitTokensListed(s, toks, 0);
    var texts := TokenTexts(s);
    forall k | 0 <= k < |texts| && ValueOf(texts[k], lookup).Some?
      ensures '$' !in ValueOf(texts[k], lookup).value
    {
      NameOfText(s, toks[k]);
    }
  }


  /** Without a `$` there is no token at all, so the early return of
      `interpolateString` agrees with the general path. */
  lemma NoDollarNoTokens(s: string, lookup: string -> Option<string>)
    requires '$' !in s
    ensures Tokens(s) == []
    ensures ApplyTokens(s, TokenTexts(s), lookup) == s
  {
    TokenNeedsDollar(s);
  }

  lemma TokenNeedsDollar(s: string)
    ensures |Tokens(s)| > 0 ==> '$' in s
  {
    var toks := Tokens(s);
    if |toks| > 0 {
      assert s[toks[0].start] == '$';
    }
  }

  lemma {:induction false} ApplyUnresolved(cur: string, toks: seq<string>, lookup: string -> Option<string>)
    requires forall k :: 0 <= k < |toks| ==> |toks[k]| >= 3
    requires forall k :: 0 <= k < |toks| ==> lookup(Trim(NameOf(toks[k]))).None?
    ensures ApplyTokens(cur, toks, lookup) == cur
    decreases |toks|
  {
    if toks != [] {
      ApplyUnresolved(cur, toks[1..], lookup);
    }
  }

  /** Tokens whose name has no value are left verbatim: when no token of `s`
      resolves, the string comes back unchanged. */
  lemma InterpolateUnresolved(s: string, lookup: string -> Option<string>)
    requires forall k :: 0 <= k < |Tokens(s)| ==> lookup(Trim(TokenName(s, Tokens(s)[k]))).None?
    ensures Interpolate(s, lookup) == s
  {
    var texts := TokenTexts(s);
    var toks := Tokens(s);
    forall k | 0 <= k < |texts| ensures lookup(Trim(NameOf(texts[k]))).None? {
      NameOfText(s, toks[k]);
    }
    ApplyUnresolved(s, texts, lookup);
  }

  /** The name inside a token's text is the token's `group(1)`. */
  lemma NameOfText(s: string, sp: Span)
    requires sp.start + 3 <= sp.end <= |s|
    ensures NameOf(TokenText(s, sp)) == TokenName(s, sp)
  {
    var t := TokenText(s, sp);
    assert forall j :: 0 <= j < |t| ==> t[j] == s[sp.start + j];
    assert t[2..|t| - 1] == s[sp.start + 2..sp.end - 1];
  }

  /** A string that is a single token `${name}` whose trimmed name resolves
      becomes exactly the value. */
  lemma InterpolateSingleToken(name: string, v: string, lookup: string -> Option<string>)
    requires '}' !in name
    requires forall j :: 0 <= j < |name| ==> !IsLineTerminator(name[j])
    requires lookup(Trim(name)) == Some(v)
    ensures Interpolate("${" + name + "}", lookup) == v
  {
    var s := "${" + name + "}";
    SingleTokenScan(name);
    assert '$' in s by {
      assert s[0] == '$';
    }
    ReplaceWhole(s, v);
    assert [s][1..] == [];
    assert ApplyTokens(s, [s], lookup) == ApplyTokens(v, [], lookup);
  }

  /** The string `${name}` is one token spanning all of it. */
  lemma SingleTokenScan(name: string)
    requires '}' !in name
    requires forall j :: 0 <= j < |name| ==> !IsLineTerminator(name[j])
    ensures TokenTexts("${" + name + "}") == ["${" + name + "}"]
    ensures NameOf("${" + name + "}") == name
  {
    var s := "${" + name + "}";
    SingleTokenMatch(name);
    assert Scan(s, |s|) == [];
    assert Tokens(s) == [Span(0, |s|)];
    assert s[0..|s|] == s;
  }

  lemma SingleTokenMatch(name: string)
    requires '}' !in name
    requires forall j :: 0 <= j < |name| ==> !IsLineTerminator(name[j])
    ensures MatchAt("${" + name + "}", 0) == Some(|name| + 3)
  {
    var s := "${" + name + "}";
    assert s[0] == '$' && s[1] == '{' && s[|s| - 1] == '}';
    assert forall j :: 2 <= j < |s| - 1 ==> s[j] == name[j - 2];
    var c := CloseFrom(s, 2);
    assert c == Some(|s| - 1);
  }

  /** A one-letter name is its own trimmed form. */
  lemma TrimLetter(c: char)
    requires c > ' '
    ensures Trim([c]) == [c]
  {
    assert TrimStart([c]) == [c];
    assert TrimEnd([c]) == [c];
  }

  /** A value holding a token is substituted as it is: the result is not
      scanned again, so `${x}` with `x = ${y}` gives `${y}` even though `y`
      has a value. */
  lemma SubstitutionNotReinterpolated()
    ensures Interpolate("${x}", n => if n == "x" then Some("${y}") else if n == "y" then Some("1") else None) == "${y}"
  {
    var lookup: string -> Option<string> := n => if n == "x" then Some("${y}") else if n == "y" then Some("1") else None;
    TrimLetter('x');
    assert "${" + "x" + "}" == "${x}";
    InterpolateSingleToken("x", "${y}", lookup);
  }

  /** Tokens are found in the original string but replaced in the rewritten
      one: a substituted value that spells a later token of the original is
      rewritten by that token. */
  lemma LaterTokenRewritesSubstitution()
    ensures Interpolate("${a}${b}", n => if n == "a" then Some("${b}") else if n == "b" then Some("2") else None) == "22"
  {
    var lookup: string -> Option<string> := n => if n == "a" then Some("${b}") else if n == "b" then Some("2") else None;
    var s := "${a}${b}";
    assert s[0] == '$';
    TwoTokens();
    ApplyBoth(lookup);
  }

  /** A `$` that opens no token lets a replacement reach across it: in
      `$${a}{b}${b}` with `a` empty and `b = X`, removing `${a}` joins the
      stray `$` and `{b}` into a new `${b}`, which the second replacement
      rewrites as well. Rendering token by token keeps that text. */
  lemma StrayDollarRewritesText()
    ensures var lookup: string -> Option<string> := n => if n == "a" then Some("") else if n == "b" then Some("X") else None;
      Interpolate("$${a}{b}${b}", lookup) == "XX" && Render("$${a}{b}${b}", lookup) == "${b}X"
  {
    var lookup: string -> Option<string> := n => if n == "a" then Some("") else if n == "b" then Some("X") else None;
    StrayCase("$${a}{b}${b}", lookup);
  }

  lemma StrayCase(s: string, lookup: string -> Option<string>)
    requires s == "$${a}{b}${b}" && lookup("a") == Some("") && lookup("b") == Some("X")
    ensures Interpolate(s, lookup) == "XX" && Render(s, lookup) == "${b}X"
  {
    assert s[0] == '$';
    StrayTokens(s);
    StrayApply(s, "${a}", "${b}", lookup);
    StrayRender(s, lookup);
  }

  /** The scanner finds `${a}` at 1 and `${b}` at 8, and not the `$` at 0. */
  lemma StrayTokens(s: string)
    requires s == "$${a}{b}${b}"
    ensures Tokens(s) == [Span(1, 5), Span(8, 12)]
    ensures TokenTexts(s) == ["${a}", "${b}"]
  {
    assert CloseFrom(s, 4) == Some(4);
    assert CloseFrom(s, 3) == Some(4);
    assert MatchAt(s, 1) == Some(5);
    assert MatchAt(s, 0).None?;
    assert CloseFrom(s, 11) == Some(11);
    assert CloseFrom(s, 10) == Some(11);
    assert MatchAt(s, 8) == Some(12);
    assert MatchAt(s, 5).None? && MatchAt(s, 6).None? && MatchAt(s, 7).None?;
    assert Scan(s, 12) == [];
    assert Scan(s, 8) == [Span(8, 12)];
    assert Scan(s, 7) == Scan(s, 8);
    assert Scan(s, 6) == Scan(s, 7);
    assert Scan(s, 5) == Scan(s, 6);
    assert Scan(s, 1) == [Span(1, 5)] + Scan(s, 5);
    assert Scan(s, 0) == Scan(s, 1);
    assert s[1..5] == "${a}" && s[8..12] == "${b}";
  }

  lemma StrayApply(s: string, ta: string, tb: string, lookup: string -> Option<string>)
    requires s == "$${a}{b}${b}" && ta == "${a}" && tb == "${b}"
    requires lookup("a") == Some("") && lookup("b") == Some("X")
    ensures ApplyTokens(s, [ta, tb], lookup) == "XX"
  {
    assert NameOf(ta) == "a" && NameOf(tb) == "b";
    TrimLetter('a');
    TrimLetter('b');
    assert ValueOf(ta, lookup) == Some("") && ValueOf(tb, lookup) == Some("X");
    var mid := ReplaceAll(s, ta, "");
    StrayFirst(s, ta, tb);
    assert mid == tb + tb;
    ReplaceFront(tb, tb, "X");
    ReplaceWhole(tb, "X");
    assert [ta, tb][1..] == [tb];
    assert [tb][1..] == [];
  }

  /** Removing `${a}` from `$${a}{b}${b}` leaves `${b}${b}`. */
  lemma StrayFirst(s: string, ta: string, tb: string)
    requires s == "$${a}{b}${b}" && ta == "${a}" && tb == "${b}"
    ensures ReplaceAll(s, ta, "") == tb + tb
  {
    StraySlices(s, ta, tb);
    StrayRest(ta, tb);
    DropAfterFirst(s, ta, "{b}" + tb);
  }

  lemma StraySlices(s: string, ta: string, tb: string)
    requires s == "$${a}{b}${b}" && ta == "${a}" && tb == "${b}"
    ensures |s| > |ta| && !StartsWith(s, ta) && s[1..] == ta + ("{b}" + tb)
    ensures [s[0]] + ("{b}" + tb) == tb + tb
  {
    assert s[..4][1] != ta[1];
  }

  /** A string that does not start with `t` but continues with `t` and then
      a text free of `t` loses exactly that occurrence. */
  lemma DropAfterFirst(s: string, t: string, rest: string)
    requires |s| > |t| > 0 && !StartsWith(s, t) && s[1..] == t + rest
    requires ReplaceAll(rest, t, "") == rest
    ensures ReplaceAll(s, t, "") == [s[0]] + rest
  {
    ReplaceFront(t, rest, "");
  }

  /** Nothing after `${a}` spells `${a}` again. */
  lemma StrayRest(ta: string, tb: string)
    requires ta == "${a}" && tb == "${b}"
    ensures ReplaceAll("{b}" + tb, ta, "") == "{b}" + tb
  {
    StrayTexts(ta, tb);
    SkipText("{b}", tb, ta, "");
    OtherTokenKept(tb, "", ta, "");
    assert tb + "" == tb;
  }

  lemma StrayTexts(ta: string, tb: string)
    requires ta == "${a}" && tb == "${b}"
    ensures IsTokenText(ta) && IsTokenText(tb) && ta != tb
  {
    assert ta[2] != tb[2];
  }

  lemma StrayRender(s: string, lookup: string -> Option<string>)
    requires s == "$${a}{b}${b}" && lookup("a") == Some("") && lookup("b") == Some("X")
    requires Tokens(s) == [Span(1, 5), Span(8, 12)]
    ensures Render(s, lookup) == "${b}X"
  {
    var toks := [Span(1, 5), Span(8, 12)];
    ScanOrdered(s, 0);
    assert TokenName(s, toks[0]) == "a" && TokenName(s, toks[1]) == "b";
    TrimLetter('a');
    TrimLetter('b');
    assert toks[1..] == [Span(8, 12)] && toks[1..][1..] == [];
    assert RenderFrom(s, toks[1..], 5, lookup) == s[5..8] + "X" + s[12..];
    assert s[0..1] == "$" && s[5..8] == "{b}" && s[12..] == "";
  }

  /** The two replacements of `LaterTokenRewritesSubstitution`, for any
      lookup with those two values. */
  lemma ApplyBoth(lookup: string -> Option<string>)
    requires lookup("a") == Some("${b}") && lookup("b") == Some("2")
    ensures ApplyTokens("${a}${b}", ["${a}", "${b}"], lookup) == "22"
  {
    assert NameOf("${a}") == "a" && NameOf("${b}") == "b";
    TrimLetter('a');
    TrimLetter('b');
    FirstReplacement();
    SecondReplacement();
    assert ["${a}", "${b}"][1..] == ["${b}"];
    assert ["${b}"][1..] == [];
  }

  /** The scanner finds `${a}` and then `${b}`. */
  lemma TwoTokens()
    ensures TokenTexts("${a}${b}") == ["${a}", "${b}"]
  {
    var s := "${a}${b}";
    assert CloseFrom(s, 3) == Some(3);
    assert CloseFrom(s, 2) == Some(3);
    assert MatchAt(s, 0) == Some(4);
    assert CloseFrom(s, 7) == Some(7);
    assert CloseFrom(s, 6) == Some(7);
    assert MatchAt(s, 4) == Some(8);
    assert Scan(s, 8) == [];
    assert Scan(s, 4) == [Span(4, 8)];
    assert Tokens(s) == [Span(0, 4), Span(4, 8)];
    assert s[0..4] == "${a}" && s[4..8] == "${b}";
  }

  lemma FirstReplacement()
    ensures ReplaceAll("${a}${b}", "${a}", "${b}") == "${b}${b}"
  {
    var s := "${a}${b}";
    assert s[..4] == "${a}";
    assert StartsWith(s, "${a}");
    assert s[4..] == "${b}";
    assert "${b}"[..4][2] != "${a}"[2];
    assert !StartsWith("${b}", "${a}");
    assert !Contains("${b}"[1..], "${a}");
    assert !Contains("${b}", "${a}");
    ReplaceAbsent("${b}", "${a}", "${b}");
  }

  lemma SecondReplacement()
    ensures ReplaceAll("${b}${b}", "${b}", "2") == "22"
  {
    var t := "${b}${b}";
    assert t[..4] == "${b}";
    assert StartsWith(t, "${b}");
    assert t[4..] == "${b}";
    ReplaceWhole("${b}", "2");
  }
}
