/**
 `SafeFNMatch_`: wildcard matching with `*` and `?`.

 The code differs from the usual meaning of a glob in two ways.  A `*` in the text
 meets a `*` in the pattern as an ordinary character, and once the text is used
 up only a single `*` may be left of the pattern.  On texts without `*` the
 effect is exactly that a pattern ending in `**` asks for one more character.
 */
module GlobMatch {
  import opened Basics

  // ----- what a glob means

  /** The texts one pattern character stands for. */
  predicate Stands(c: char, piece: string) {
    c == '*' || (|piece| == 1 && (c == '?' || piece[0] == c))
  }

  /** The text splits into pieces, one for each pattern character. */
  ghost predicate Splits(p: string, t: string) {
    exists pieces :: SplitBy(p, t, pieces)
  }

  ghost predicate SplitBy(p: string, t: string, pieces: seq<string>) {
    && |pieces| == |p| && Concat(pieces) == t
    && forall i :: 0 <= i < |p| ==> Stands(p[i], pieces[i])
  }

  /** The same, one pattern character at a time. */
  ghost predicate Glob(p: string, t: string) {
    if p == [] then t == []
    else if p[0] == '*' then exists k :: 0 <= k <= |t| && Glob(p[1..], t[k..])
    else t != [] && (p[0] == '?' || p[0] == t[0]) && Glob(p[1..], t[1..])
  }

  lemma {:induction false} SplitsGlob(p: string, t: string, pieces: seq<string>)
    requires SplitBy(p, t, pieces)
    ensures Glob(p, t)
  {
    if p != [] {
      var k := |pieces[0]|;
      assert t[..k] == pieces[0] && t[k..] == Concat(pieces[1..]);
      SplitsGlob(p[1..], t[k..], pieces[1..]);
    }
  }

  lemma {:induction false} GlobSplits(p: string, t: string) returns (pieces: seq<string>)
    requires Glob(p, t)
    ensures SplitBy(p, t, pieces)
  {
    if p == [] {
      pieces := [];
    } else {
      var k := 1;
      if p[0] == '*' {
        k :| 0 <= k <= |t| && Glob(p[1..], t[k..]);
      }
      var rest := GlobSplits(p[1..], t[k..]);
      pieces := [t[..k]] + rest;
      assert pieces[1..] == rest;
    }
  }

  /** The two readings of a glob agree. */
  lemma GlobMeansSplit(p: string, t: string)
    ensures Glob(p, t) <==> Splits(p, t)
  {
    if Glob(p, t) {
      var pieces := GlobSplits(p, t);
    }
    if Splits(p, t) {
      var pieces :| SplitBy(p, t, pieces);
      SplitsGlob(p, t, pieces);
    }
  }

  // ----- what the code computes

  predicate FnMatch(p: string, t: string)
    decreases |p|, |t|
  {
    if p == [] then t == []
    else if t == [] then p == "*"
    else if p[0] == t[0] || p[0] == '?' then FnMatch(p[1..], t[1..])
    else p[0] == '*' && (|p| == 1 || exists k :: 0 <= k < |t| && FnMatch(p[1..], t[k..]))
  }

  lemma Tail(s: string, i: nat)
    requires i < |s|
    ensures s[i..][1..] == s[i + 1..] && s[i..][0] == s[i]
  {}

  lemma FnMatchMeaning(p: string, t: string)
    ensures FnMatch(p, t) ==> Splits(p, t)
    ensures StarFree(t) ==> (FnMatch(p, t) <==> Splits(Effective(p), t))
  {
    if FnMatch(p, t) {
      FnMatchSound(p, t);
      GlobMeansSplit(p, t);
    }
    if StarFree(t) {
      FnMatchExact(p, t);
      GlobMeansSplit(Effective(p), t);
    }
  }

  /** The loop over the two cursors, with a recursive call for each star. */
  method SafeFNMatch(pattern: string, str: string) returns (r: bool)
    ensures r == FnMatch(pattern, str)
    ensures r <==> CodeSplits(pattern, str)
    ensures r ==> Splits(pattern, str)
    ensures StarFree(str) ==> (r <==> Splits(Effective(pattern), str))
    decreases |pattern|, 0
  {
    FnMatchMeaning(pattern, str);
    CodeSplitsExact(pattern, str);
    var p, s := 0, 0;
    while true
      invariant 0 <= p <= |pattern| && 0 <= s <= |str|
      invariant FnMatch(pattern, str) == FnMatch(pattern[p..], str[s..])
      decreases |pattern| - p
    {
      if p == |pattern| && s == |str| { return true; }
      if p == |pattern| { return false; }
      if s == |str| { return p + 1 == |pattern| && pattern[p] == '*'; }
      if pattern[p] == str[s] || pattern[p] == '?' {
        Tail(pattern, p);
        Tail(str, s);
        p, s := p + 1, s + 1;
        continue;
      }
      if pattern[p] == '*' {
        if p + 1 == |pattern| { return true; }
        r := AfterStar(pattern[p + 1..], str[s..]);
        Tail(pattern, p);
        return r;
      }
      return false;
    }
  }

  /** The do-while loop: try the rest of the pattern at each position before the end. */
  method AfterStar(rest: string, str: string) returns (r: bool)
    requires str != []
    ensures r <==> exists k :: 0 <= k < |str| && FnMatch(rest, str[k..])
    decreases |rest|, 1
  {
    for s := 0 to |str|
      invariant forall k :: 0 <= k < s ==> !FnMatch(rest, str[k..])
    {
      r := SafeFNMatch(rest, str[s..]);
      if r { return true; }
    }
    return false;
  }

  // ----- soundness, for every pattern and text

  lemma {:induction false} FnMatchSound(p: string, t: string)
    requires FnMatch(p, t)
    ensures Glob(p, t)
    decreases |p|, |t|
  {
    if p == [] {
    } else if t == [] {
      assert Glob(p[1..], t[0..]);
    } else if p[0] == t[0] || p[0] == '?' {
      FnMatchSound(p[1..], t[1..]);
    } else if |p| == 1 {
      assert Glob(p[1..], t[|t|..]);
    } else {
      var k :| 0 <= k < |t| && FnMatch(p[1..], t[k..]);
      FnMatchSound(p[1..], t[k..]);
    }
  }

  // ----- exactness, on texts without a star

  predicate StarFree(t: string) {
    '*' !in t
  }

  predicate EndsInTwoStars(p: string) {
    |p| >= 2 && p[|p| - 1] == '*' && p[|p| - 2] == '*'
  }

  /** The glob the code really decides. */
  function Effective(p: string): string {
    if EndsInTwoStars(p) then p[..|p| - 1] + "?" else p
  }

  lemma {:induction false} GlobEmpty(p: string)
    ensures Glob(p, []) <==> forall i :: 0 <= i < |p| ==> p[i] == '*'
  {
    if p != [] && p[0] == '*' {
      GlobEmpty(p[1..]);
      var t: string := [];
      assert t[0..] == [];
    }
  }

  lemma EffectiveTail(p: string)
    requires |p| >= 2 && p != "**"
    ensures Effective(p)[0] == p[0] && Effective(p)[1..] == Effective(p[1..])
  {
  }

  /** On a text without stars the code decides the effective glob, both ways. */
  lemma {:induction false} FnMatchExact(p: string, t: string)
    requires StarFree(t)
    ensures FnMatch(p, t) <==> Glob(Effective(p), t)
    decreases |p|, |t|
  {
    if p == [] {
    } else if t == [] {
      GlobEmpty(Effective(p));
      if |p| >= 2 {
        var e := Effective(p);
        assert e[|e| - 1] == '?' || e[|e| - 1] != '*' || e[|e| - 2] != '*';
      }
    } else if p == "**" {
      ExactTwoStars(t);
    } else if |p| == 1 {
      if p[0] == '*' {
        assert Glob(p[1..], t[|t|..]);
      } else {
        FnMatchExact(p[1..], t[1..]);
      }
    } else {
      EffectiveTail(p);
      if p[0] == '*' {
        ExactStar(p, t);
      } else {
        FnMatchExact(p[1..], t[1..]);
      }
    }
  }

  lemma ExactTwoStars(t: string)
    requires StarFree(t) && t != []
    ensures FnMatch("**", t) && Glob(Effective("**"), t)
  {
    var e := Effective("**");
    assert e == "*?" && e[1..] == "?" && e[1..][1..] == [];
    var k := |t| - 1;
    assert Glob(e[1..], t[k..]);
    assert "**"[1..] == "*";
    assert FnMatch("**"[1..], t[0..]);
  }

  lemma {:induction false} ExactStar(p: string, t: string)
    requires StarFree(t) && t != [] && |p| >= 2 && p != "**" && p[0] == '*'
    requires Effective(p)[0] == '*' && Effective(p)[1..] == Effective(p[1..])
    ensures FnMatch(p, t) <==> Glob(Effective(p), t)
    decreases |p|, |t|, 0
  {
    var e := Effective(p);
    forall k | 0 <= k < |t| ensures FnMatch(p[1..], t[k..]) <==> Glob(e[1..], t[k..]) {
      FnMatchExact(p[1..], t[k..]);
    }
    GlobEmpty(e[1..]);
    assert t[|t|..] == [];
    assert !Glob(e[1..], []) by {
      var f := e[1..];
      assert f[|f| - 1] == '?' || f[|f| - 1] != '*' || f[|f| - 2] != '*';
    }
  }

  // ----- where the code and the glob part

  function CountPlain(p: string): nat {
    if p == [] then 0 else (if p[0] == '*' then 0 else 1) + CountPlain(p[1..])
  }

  function Plain(p: string): (t: string)
    ensures StarFree(t) && |t| == CountPlain(p)
  {
    if p == [] then [] else (if p[0] == '*' then [] else [p[0]]) + Plain(p[1..])
  }

  lemma {:induction false} PlainMatches(p: string)
    ensures Glob(p, Plain(p))
  {
    if p != [] {
      PlainMatches(p[1..]);
      var t := Plain(p);
      if p[0] == '*' {
        assert t[0..] == Plain(p[1..]);
      } else {
        assert t[1..] == Plain(p[1..]);
      }
    }
  }

  lemma {:induction false} GlobLength(p: string, t: string)
    requires Glob(p, t)
    ensures |t| >= CountPlain(p)
  {
    if p != [] {
      if p[0] == '*' {
        var k :| 0 <= k <= |t| && Glob(p[1..], t[k..]);
        GlobLength(p[1..], t[k..]);
      } else {
        GlobLength(p[1..], t[1..]);
      }
    }
  }

  lemma {:induction false} EffectiveCount(p: string)
    requires EndsInTwoStars(p)
    ensures CountPlain(Effective(p)) == CountPlain(p) + 1
  {
    if p == "**" {
      assert Effective(p)[1..] == "?" && p[1..] == "*" && Effective(p)[1..][1..] == [] && p[1..][1..] == [];
    } else {
      EffectiveTail(p);
      EffectiveCount(p[1..]);
    }
  }

  /** A pattern is decided correctly on every star-free text if and only if it does not end in `**`. */
  lemma PatternDecided(p: string)
    ensures (forall t :: StarFree(t) ==> (FnMatch(p, t) <==> Glob(p, t))) <==> !EndsInTwoStars(p)
  {
    if EndsInTwoStars(p) {
      var t := Plain(p);
      PlainMatches(p);
      FnMatchExact(p, t);
      EffectiveCount(p);
      if FnMatch(p, t) { GlobLength(Effective(p), t); }
    } else {
      forall t | StarFree(t) ensures FnMatch(p, t) <==> Glob(p, t) {
        FnMatchExact(p, t);
      }
    }
  }

  function Marks(n: nat): string {
    seq(n, _ => '?')
  }

  lemma {:induction false} MarksMatch(n: nat, t: string)
    ensures FnMatch(Marks(n), t) <==> |t| == n
    ensures Glob(Marks(n), t) <==> |t| == n
  {
    if n > 0 && t == [] {
      assert Marks(n)[0] == '?' != "*"[0];
    } else if n > 0 {
      assert Marks(n)[1..] == Marks(n - 1);
      MarksMatch(n - 1, t[1..]);
    }
  }

  /** `n` question marks, a star, and enough question marks for the rest of the text. */
  function Trap(i: nat, n: nat): string
    requires i <= n
  {
    Marks(i) + "*" + Marks(n - i)
  }

  lemma {:induction false} TrapFails(i: nat, t: string)
    requires i < |t| && t[i] == '*'
    ensures Glob(Trap(i, |t|), t) && !FnMatch(Trap(i, |t|), t)
  {
    var p := Trap(i, |t|);
    if i == 0 {
      assert p[1..] == Marks(|t|);
      MarksMatch(|t|, t);
      MarksMatch(|t|, t[1..]);
      assert t[0..] == t;
    } else {
      assert p[1..] == Trap(i - 1, |t| - 1);
      TrapFails(i - 1, t[1..]);
    }
  }

  /** A text is decided correctly against every pattern not ending in `**` if and only if it has no star. */
  lemma TextDecided(t: string)
    ensures (forall p :: !EndsInTwoStars(p) ==> (FnMatch(p, t) <==> Glob(p, t))) <==> StarFree(t)
  {
    if StarFree(t) {
      forall p | !EndsInTwoStars(p) ensures FnMatch(p, t) <==> Glob(p, t) {
        FnMatchExact(p, t);
      }
    } else {
      var i :| 0 <= i < |t| && t[i] == '*';
      TrapFails(i, t);
      var p := Trap(i, |t|);
      assert p[|p| - 1] == '?';
    }
  }

  // ----- over all texts

  /** The pattern as a text, with a star for each question mark. */
  function Shadow(p: string): string {
    seq(|p|, i requires 0 <= i < |p| => if p[i] == '?' then '*' else p[i])
  }

  lemma {:induction false} ShadowMatches(p: string)
    ensures Glob(p, Shadow(p))
  {
    if p != [] {
      assert Shadow(p)[1..] == Shadow(p[1..]);
      ShadowMatches(p[1..]);
    }
  }

  /** One star too many at the front is passed on to the end. */
  lemma {:induction false} ShadowRejected(p: string)
    ensures !FnMatch(p, "*" + Shadow(p))
  {
    if p != [] {
      ShadowRejected(p[1..]);
      assert ("*" + Shadow(p))[1..] == Shadow(p) == [Shadow(p)[0]] + Shadow(p[1..]);
    }
  }

  /** The shadow with its first star from a star of the pattern doubled. */
  function Doubled(p: string): string
    requires '*' in p
  {
    if p[0] == '*' then "*" + Shadow(p) else [Shadow(p)[0]] + Doubled(p[1..])
  }

  lemma {:induction false} DoubledFails(p: string)
    requires '*' in p
    ensures Glob(p, Doubled(p)) && !FnMatch(p, Doubled(p))
  {
    var t := Doubled(p);
    if p[0] == '*' {
      assert t[1..] == Shadow(p) == "*" + Shadow(p[1..]);
      assert t[2..] == Shadow(p[1..]);
      ShadowMatches(p[1..]);
      ShadowRejected(p[1..]);
    } else {
      assert t[1..] == Doubled(p[1..]);
      DoubledFails(p[1..]);
    }
  }

  lemma {:induction false} StarlessExact(p: string, t: string)
    requires '*' !in p
    ensures FnMatch(p, t) <==> Glob(p, t)
  {
    if p != [] && t != [] {
      StarlessExact(p[1..], t[1..]);
    }
  }

  /** A pattern is decided correctly on all texts if and only if it has no star. */
  lemma PatternDecidedEverywhere(p: string)
    ensures (forall t :: FnMatch(p, t) <==> Glob(p, t)) <==> '*' !in p
  {
    if '*' in p {
      DoubledFails(p);
    } else {
      forall t ensures FnMatch(p, t) <==> Glob(p, t) {
        StarlessExact(p, t);
      }
    }
  }

  // ----- exactly which splits the code finds

  /**
   How a star of the pattern may be used, given the text `rest` from there on: as a
   plain character where the text has a star, else for any piece that leaves some of
   the text to the rest of the pattern, if there is a rest of the pattern.
   */
  predicate StarUse(rest: string, piece: string, last: bool) {
    if rest != [] && rest[0] == '*' then piece == "*" else last || |piece| < |rest|
  }

  ghost predicate CodeSplitBy(p: string, t: string, pieces: seq<string>) {
    && SplitBy(p, t, pieces)
    && forall i :: 0 <= i < |p| && p[i] == '*' ==> StarUse(Concat(pieces[i..]), pieces[i], i == |p| - 1)
  }

  ghost predicate CodeSplits(p: string, t: string) {
    exists pieces :: CodeSplitBy(p, t, pieces)
  }

  lemma SplitHead(p: string, t: string, pieces: seq<string>)
    requires SplitBy(p, t, pieces) && p != []
    ensures var k := |pieces[0]|;
            k <= |t| && t[..k] == pieces[0] && SplitBy(p[1..], t[k..], pieces[1..]) && Stands(p[0], pieces[0])
  {
    var k := |pieces[0]|;
    assert t == pieces[0] + Concat(pieces[1..]);
    assert t[..k] == pieces[0] && t[k..] == Concat(pieces[1..]);
  }

  lemma CodeSplitTail(p: string, t: string, pieces: seq<string>)
    requires CodeSplitBy(p, t, pieces) && p != []
    ensures |pieces[0]| <= |t| && CodeSplitBy(p[1..], t[|pieces[0]|..], pieces[1..])
    ensures p[0] == '*' ==> StarUse(t, pieces[0], |p| == 1)
  {
    SplitHead(p, t, pieces);
    var q, qs := p[1..], pieces[1..];
    forall i | 0 <= i < |q| && q[i] == '*' ensures StarUse(Concat(qs[i..]), qs[i], i == |q| - 1) {
      assert p[i + 1] == '*' && qs[i..] == pieces[i + 1..];
    }
    assert pieces[0..] == pieces;
  }

  lemma {:induction false} CodeSplitMatches(p: string, t: string, pieces: seq<string>)
    requires CodeSplitBy(p, t, pieces)
    ensures FnMatch(p, t)
    decreases |p|
  {
    if p != [] {
      SplitHead(p, t, pieces);
      CodeSplitTail(p, t, pieces);
      CodeSplitMatches(p[1..], t[|pieces[0]|..], pieces[1..]);
      MatchHead(p, t, |pieces[0]|);
    }
  }

  lemma {:induction false} MatchHead(p: string, t: string, k: nat)
    requires p != [] && k <= |t| && Stands(p[0], t[..k]) && FnMatch(p[1..], t[k..])
    requires p[0] == '*' ==> StarUse(t, t[..k], |p| == 1)
    ensures FnMatch(p, t)
  {
    if k == 1 {
      assert t[..k][0] == t[0];
    }
  }

  lemma CodeSplitCons(p: string, t: string, k: nat, rest: seq<string>)
    requires p != [] && k <= |t| && CodeSplitBy(p[1..], t[k..], rest)
    requires Stands(p[0], t[..k]) && (p[0] == '*' ==> StarUse(t, t[..k], |p| == 1))
    ensures CodeSplitBy(p, t, [t[..k]] + rest)
  {
    var pieces := [t[..k]] + rest;
    assert pieces[1..] == rest && t == t[..k] + t[k..];
    assert pieces[0..] == pieces;
    forall i | 0 <= i < |p| && p[i] == '*' ensures StarUse(Concat(pieces[i..]), pieces[i], i == |p| - 1) {
      if i > 0 {
        assert p[1..][i - 1] == '*' && pieces[i..] == rest[i - 1..];
      }
    }
  }

  lemma {:induction false} MatchCodeSplits(p: string, t: string) returns (pieces: seq<string>)
    requires FnMatch(p, t)
    ensures CodeSplitBy(p, t, pieces)
    decreases |p|
  {
    if p == [] {
      pieces := [];
    } else {
      var k := 1;
      if t == [] {
        k := 0;
      } else if p[0] != t[0] && p[0] != '?' {
        if |p| == 1 {
          k := |t|;
        } else {
          k :| 0 <= k < |t| && FnMatch(p[1..], t[k..]);
        }
      }
      var rest := MatchCodeSplits(p[1..], t[k..]);
      CodeSplitCons(p, t, k, rest);
      pieces := [t[..k]] + rest;
    }
  }

  /** For every pattern and text: the code accepts exactly the splits that use stars so. */
  lemma CodeSplitsExact(p: string, t: string)
    ensures FnMatch(p, t) <==> CodeSplits(p, t)
  {
    if FnMatch(p, t) {
      var pieces := MatchCodeSplits(p, t);
    }
    if CodeSplits(p, t) {
      var pieces :| CodeSplitBy(p, t, pieces);
      CodeSplitMatches(p, t, pieces);
    }
  }
}
