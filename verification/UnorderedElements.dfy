/** `UnorderedElementsAre`: a cheap pre-check, then a maximum matching. */
module UnorderedElements {
  import opened BipartiteMatching
  import opened MaxBipartiteMatch
  import opened Basics

  /** Matcher `r` is satisfied by element `a[r]`, a different element for each matcher. */
  ghost predicate IsAssignment(g: MatchMatrix, a: seq<nat>) {
    && |a| == g.rhs
    && (forall r :: 0 <= r < |a| ==> g.HasEdge(a[r], r))
    && (forall r, q :: 0 <= r < q < |a| ==> a[r] != a[q])
  }

  ghost predicate HasAssignment(g: MatchMatrix) {
    exists a :: IsAssignment(g, a)
  }

  /** The numbers below `n`. */
  ghost function Range(n: nat): (s: set<nat>)
    ensures |s| == n
    ensures forall i: nat :: i in s <==> i < n
  {
    if n == 0 then {} else Range(n - 1) + {n - 1}
  }

  /** The matching that pairs each assigned element with its matcher. */
  ghost function Inverse(a: seq<nat>): (m: map<nat, nat>)
    ensures forall l :: l in m ==> m[l] < |a| && a[m[l]] == l
    ensures m.Keys == set r | 0 <= r < |a| :: a[r]
  {
    map l | l in a :: IndexOf(a, l)
  }

  ghost function IndexOf(a: seq<nat>, l: nat): (r: nat)
    requires l in a
    ensures r < |a| && a[r] == l
  {
    var r: nat :| r < |a| && a[r] == l;
    r
  }

  lemma {:induction false} DistinctSize(a: seq<nat>)
    requires forall r, q :: 0 <= r < q < |a| ==> a[r] != a[q]
    ensures |set r | 0 <= r < |a| :: a[r]| == |a|
  {
    if a != [] {
      var b, last := a[..|a| - 1], a[|a| - 1];
      DistinctSize(b);
      assert (set r | 0 <= r < |a| :: a[r]) == (set r | 0 <= r < |b| :: b[r]) + {last};
    }
  }

  /** An assignment is a matching as large as there are matchers. */
  lemma AssignmentMatches(g: MatchMatrix, a: seq<nat>)
    requires IsAssignment(g, a)
    ensures IsMatching(g, Inverse(a)) && |Inverse(a)| == g.rhs
  {
    DistinctSize(a);
    assert |Inverse(a)| == |Inverse(a).Keys|;
  }

  ghost function Rights(pairs: seq<(nat, nat)>): (rs: seq<nat>)
    ensures |rs| == |pairs| && forall i :: 0 <= i < |pairs| ==> rs[i] == pairs[i].1
  {
    seq(|pairs|, i requires 0 <= i < |pairs| => pairs[i].1)
  }

  /** A matching uses at most every matcher; a full one uses each of them. */
  lemma PairingFits(g: MatchMatrix, pairs: seq<(nat, nat)>)
    requires IsPairing(g, pairs)
    ensures |pairs| <= g.rhs
    ensures |pairs| == g.rhs ==> forall r: nat :: r < g.rhs ==> r in Rights(pairs)
  {
    var rs := Rights(pairs);
    DistinctSize(rs);
    var used := set i | 0 <= i < |rs| :: rs[i];
    assert used <= Range(g.rhs) by {
      assert forall i :: 0 <= i < |rs| ==> g.HasEdge(pairs[i].0, rs[i]);
    }
    SubsetSize(used, Range(g.rhs));
    forall r: nat | |pairs| == g.rhs && r < g.rhs ensures r in rs {
      assert r in used;
    }
  }

  /** A full matching holds, for each matcher, an element of its own. */
  lemma PairingAssigns(g: MatchMatrix, pairs: seq<(nat, nat)>)
    requires IsPairing(g, pairs) && |pairs| == g.rhs
    ensures HasAssignment(g)
  {
    PairingFits(g, pairs);
    var rs := Rights(pairs);
    var a := seq(g.rhs, r requires 0 <= r < g.rhs => pairs[IndexOf(rs, r)].0);
    forall r: nat | r < g.rhs ensures g.HasEdge(a[r], r) {
      assert pairs[IndexOf(rs, r)] == (a[r], r);
    }
    forall r: nat, q: nat | r < q < g.rhs ensures a[r] != a[q] {
      assert IndexOf(rs, r) != IndexOf(rs, q);
    }
    assert IsAssignment(g, a);
  }

  method FindPairing(g: MatchMatrix) returns (result: bool)
    ensures result <==> HasAssignment(g)
  {
    var matches := FindMaxBipartiteMatching(g);
    result := |matches| == g.rhs;
    if result {
      PairingAssigns(g, matches);
    } else if HasAssignment(g) {
      var a :| IsAssignment(g, a);
      AssignmentMatches(g, a);
      PairingFits(g, matches);
    }
  }

  ghost predicate MatcherMet(g: MatchMatrix, r: nat) {
    exists l: nat :: g.HasEdge(l, r)
  }

  ghost predicate ElementMet(g: MatchMatrix, l: nat) {
    exists r: nat :: g.HasEdge(l, r)
  }

  /** Every matcher matches something and every element is matched by something. */
  method VerifyAllElementsAndMatchersAreMatched(g: MatchMatrix) returns (result: bool)
    ensures result <==> && (forall r: nat :: r < g.rhs ==> MatcherMet(g, r))
                        && (forall l: nat :: l < g.lhs ==> ElementMet(g, l))
  {
    var elementMatched := new bool[g.lhs](_ => false);
    var matcherMatched := new bool[g.rhs](_ => false);
    for ilhs := 0 to g.lhs
      invariant forall l: nat :: l < g.lhs ==> (elementMatched[l] <==> l < ilhs && ElementMet(g, l))
      invariant forall r: nat :: r < g.rhs ==> (matcherMatched[r] <==> exists l: nat :: l < ilhs && g.HasEdge(l, r))
    {
      for irhs := 0 to g.rhs
        invariant forall l: nat :: l < g.lhs && l != ilhs ==> (elementMatched[l] <==> l < ilhs && ElementMet(g, l))
        invariant elementMatched[ilhs] <==> exists r: nat :: r < irhs && g.HasEdge(ilhs, r)
        invariant forall r: nat :: r < g.rhs ==>
          (matcherMatched[r] <==> exists l: nat :: g.HasEdge(l, r) && (l < ilhs || (l == ilhs && r < irhs)))
      {
        var matched := g.HasEdge(ilhs, irhs);
        elementMatched[ilhs] := elementMatched[ilhs] || matched;
        matcherMatched[irhs] := matcherMatched[irhs] || matched;
      }
    }
    assert forall r: nat :: r < g.rhs ==> (matcherMatched[r] <==> MatcherMet(g, r));
    result := true;
    for mi := 0 to g.rhs
      invariant result <==> forall r: nat :: r < mi ==> MatcherMet(g, r)
    {
      if !matcherMatched[mi] {
        result := false;
      }
    }
    for ei := 0 to g.lhs
      invariant result <==> && (forall r: nat :: r < g.rhs ==> MatcherMet(g, r))
                            && (forall l: nat :: l < ei ==> ElementMet(g, l))
    {
      if !elementMatched[ei] {
        result := false;
      }
    }
  }

  /** On a square matrix the pre-check rejects nothing that can be paired. */
  lemma PreCheckHarmless(g: MatchMatrix)
    requires g.lhs == g.rhs && HasAssignment(g)
    ensures forall r: nat :: r < g.rhs ==> MatcherMet(g, r)
    ensures forall l: nat :: l < g.lhs ==> ElementMet(g, l)
  {
    var a :| IsAssignment(g, a);
    DistinctSize(a);
    var used := set r | 0 <= r < |a| :: a[r];
    assert used <= Range(g.lhs);
    SubsetSize(used, Range(g.lhs));
    forall l: nat | l < g.lhs ensures ElementMet(g, l) {
      assert l in Range(g.lhs);
      var r :| 0 <= r < |a| && a[r] == l;
      assert g.HasEdge(l, r);
    }
    forall r: nat | r < g.rhs ensures MatcherMet(g, r) {
      assert g.HasEdge(a[r], r);
    }
  }

  /** The verdict: as many elements as matchers, and some permutation satisfies them all. */
  method MatchAndExplain(g: MatchMatrix) returns (result: bool)
    ensures result <==> g.lhs == g.rhs && HasAssignment(g)
  {
    if g.lhs == 0 && g.rhs == 0 {
      assert IsAssignment(g, []);
      return true;
    }
    if g.lhs != g.rhs {
      return false;
    }
    if HasAssignment(g) {
      PreCheckHarmless(g);
    }
    result := VerifyAllElementsAndMatchersAreMatched(g);
    if result {
      result := FindPairing(g);
    }
  }
}
