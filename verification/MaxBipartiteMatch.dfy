/**
 The augmenting-path search of `MaxBipartiteMatchState`, on its two arrays.

 Deep in the recursion the arrays disagree at one right node; `MutualExcept` names
 that node.  `Compute` carries a vertex cover that grows with the matching.
 */
module MaxBipartiteMatch {
  import opened BipartiteMatching

  /** `kUnused`. */
  const UNUSED: int := -1

  /** Entries are unused or point across, left ones along an edge. */
  ghost predicate Pointers(g: MatchMatrix, left: seq<int>, right: seq<int>) {
    && |left| == g.lhs && |right| == g.rhs
    && (forall l :: 0 <= l < |left| && left[l] != UNUSED ==> 0 <= left[l] < g.rhs && g.HasEdge(l, left[l]))
    && (forall r :: 0 <= r < |right| && right[r] != UNUSED ==> 0 <= right[r] < g.lhs)
  }

  /** Mutually referent, but for the right node `gap`, whose entry may be stale. */
  ghost predicate MutualExcept(g: MatchMatrix, left: seq<int>, right: seq<int>, gap: int) {
    && Pointers(g, left, right)
    && (forall l :: 0 <= l < |left| && left[l] != UNUSED ==> right[left[l]] == l)
    && (forall r :: 0 <= r < |right| && r != gap && right[r] != UNUSED ==> left[right[r]] == r)
  }

  ghost predicate Mutual(g: MatchMatrix, left: seq<int>, right: seq<int>) {
    MutualExcept(g, left, right, UNUSED)
  }

  ghost predicate AllSeen(g: MatchMatrix, seen: seq<bool>, l: nat) {
    forall r: nat :: r < |seen| && g.HasEdge(l, r) ==> seen[r]
  }

  /** Right nodes marked since `before` are matched to left nodes that lead nowhere new. */
  ghost predicate DeadEnds(g: MatchMatrix, right: seq<int>, before: seq<bool>, seen: seq<bool>)
    requires |right| == |before| == |seen|
  {
    forall r :: 0 <= r < |seen| && seen[r] && !before[r] ==> right[r] >= 0 && AllSeen(g, seen, right[r])
  }

  ghost predicate Grows(before: seq<bool>, seen: seq<bool>) {
    |before| == |seen| && forall r :: 0 <= r < |seen| && before[r] ==> seen[r]
  }

  ghost function Unseen(seen: seq<bool>): set<int> {
    set r | 0 <= r < |seen| && !seen[r]
  }

  /** A path was found from `l` and flow pushed along it. */
  ghost predicate Augmented(g: MatchMatrix, l0: seq<int>, r0: seq<int>, seen: seq<bool>,
                            left: seq<int>, right: seq<int>, l: nat)
    requires l < |l0| == g.lhs && |r0| == g.rhs == |seen| && Pointers(g, l0, r0)
  {
    && MutualExcept(g, left, right, l0[l])
    && left[l] != UNUSED && left[l] != l0[l]
    && (forall k :: 0 <= k < g.lhs && k != l ==> (left[k] == UNUSED <==> l0[k] == UNUSED))
    && (forall k :: 0 <= k < g.lhs && k != l && (l0[k] == UNUSED || seen[l0[k]]) ==> left[k] == l0[k])
    && (forall r :: 0 <= r < g.rhs && seen[r] ==> right[r] == r0[r])
  }

  /** What holds of `l` when a search from it begins. */
  ghost predicate Startable(g: MatchMatrix, left: seq<int>, right: seq<int>, seen: seq<bool>, l: nat) {
    && Mutual(g, left, right) && |seen| == |right| && l < |left|
    && (left[l] != UNUSED ==> seen[left[l]])
  }

  /** The path ends here: `r` is unmatched. */
  lemma LinkFree(g: MatchMatrix, left: seq<int>, right: seq<int>, seen: seq<bool>, l: nat, r: nat)
    requires Startable(g, left, right, seen, l)
    requires g.HasEdge(l, r) && !seen[r] && right[r] == UNUSED
    ensures Augmented(g, left, right, seen, left[l := r], right[r := l], l)
  {
  }

  /** The path goes on through the left node that held `r`. */
  lemma LinkPushed(g: MatchMatrix, left: seq<int>, right: seq<int>, before: seq<bool>, seen: seq<bool>,
                   l: nat, r: nat, left': seq<int>, right': seq<int>)
    requires Startable(g, left, right, before, l) && Grows(before, seen)
    requires g.HasEdge(l, r) && !before[r] && right[r] != UNUSED && seen[r]
    requires Augmented(g, left, right, seen, left', right', right[r])
    ensures Augmented(g, left, right, before, left'[l := r], right'[r := l], l)
  {
    var k := right[r];
    assert left[k] == r && k != l;
  }

  lemma DeadEnd(g: MatchMatrix, right: seq<int>, before: seq<bool>, mid: seq<bool>, seen: seq<bool>, r: nat)
    requires |right| == |before| == |mid| == |seen| && r < |mid|
    requires DeadEnds(g, right, before, mid) && Grows(before, mid) && Grows(mid[r := true], seen)
    requires DeadEnds(g, right, mid[r := true], seen) && right[r] >= 0 && AllSeen(g, seen, right[r])
    ensures DeadEnds(g, right, before, seen) && Grows(before, seen)
  {
  }

  // ----- the cover that proves the matching maximum

  /** The matching the left array stands for. */
  ghost function Pairs(left: seq<int>): map<nat, nat> {
    map l: nat | l < |left| && left[l] >= 0 :: left[l]
  }

  lemma PairsMatch(g: MatchMatrix, left: seq<int>, right: seq<int>)
    requires Mutual(g, left, right)
    ensures IsMatching(g, Pairs(left))
    ensures forall l: nat :: l < |left| ==> (left[l] != UNUSED <==> l in Pairs(left))
  {
  }

  /** The first `n` left nodes have been tried, and their edges are covered. */
  ghost predicate Certified(g: MatchMatrix, n: nat, left: seq<int>, right: seq<int>, cl: set<nat>, cr: set<nat>) {
    && Mutual(g, left, right) && n <= |left|
    && (forall l :: n <= l < |left| ==> left[l] == UNUSED)
    && Covers(g, n, cl, cr) && |cl| + |cr| == |Pairs(left)|
  }

  lemma CertifiedTight(g: MatchMatrix, n: nat, left: seq<int>, right: seq<int>, cl: set<nat>, cr: set<nat>)
    requires Certified(g, n, left, right, cl, cr)
    ensures cl <= Pairs(left).Keys
    ensures forall l :: l in Pairs(left) ==> (l in cl <==> Pairs(left)[l] !in cr)
    ensures forall r :: r in cr ==> r < |right| && right[r] >= 0
  {
    PairsMatch(g, left, right);
    TightCover(g, Pairs(left), cl, cr);
  }

  lemma CoverWithin(g: MatchMatrix, n: nat, left: seq<int>, right: seq<int>, cl: set<nat>, cr: set<nat>)
    requires Certified(g, n, left, right, cl, cr)
    ensures cl <= Pairs(left).Keys
  {
    CertifiedTight(g, n, left, right, cl, cr);
  }

  /** A left node that found a path joins the cover. */
  lemma CertifyFound(g: MatchMatrix, n: nat, left: seq<int>, right: seq<int>, seen: seq<bool>,
                     left': seq<int>, right': seq<int>, cl: set<nat>, cr: set<nat>)
    requires Certified(g, n, left, right, cl, cr) && n < g.lhs && |seen| == g.rhs
    requires Augmented(g, left, right, seen, left', right', n)
    ensures Certified(g, n + 1, left', right', cl + {n}, cr)
  {
    CoverWithin(g, n, left, right, cl, cr);
    FoundGrows(g, n, left, right, seen, left', right');
    FoundCovers(g, n, cl, cr);
  }

  /** The arrays after a path from a left node that was unmatched, as were all after it. */
  lemma FoundGrows(g: MatchMatrix, n: nat, left: seq<int>, right: seq<int>, seen: seq<bool>,
                   left': seq<int>, right': seq<int>)
    requires Mutual(g, left, right) && n < g.lhs && |seen| == g.rhs
    requires forall l :: n <= l < |left| ==> left[l] == UNUSED
    requires Augmented(g, left, right, seen, left', right', n)
    ensures Mutual(g, left', right') && forall l :: n < l < |left'| ==> left'[l] == UNUSED
    ensures n !in Pairs(left) && |Pairs(left')| == |Pairs(left)| + 1
  {
    PairsGrow(g, left, left', n);
  }

  lemma FoundCovers(g: MatchMatrix, n: nat, cl: set<nat>, cr: set<nat>)
    requires Covers(g, n, cl, cr)
    ensures Covers(g, n + 1, cl + {n}, cr)
  {}

  lemma PairsGrow(g: MatchMatrix, left: seq<int>, left': seq<int>, n: nat)
    requires n < |left| == |left'| && left[n] == UNUSED && left'[n] >= 0
    requires forall k :: 0 <= k < |left| && left[k] != UNUSED ==> left[k] >= 0
    requires forall k :: 0 <= k < |left| && left'[k] != UNUSED ==> left'[k] >= 0
    requires forall k :: 0 <= k < |left| && k != n ==> (left'[k] == UNUSED <==> left[k] == UNUSED)
    ensures n !in Pairs(left) && |Pairs(left')| == |Pairs(left)| + 1
  {
    assert Pairs(left').Keys == Pairs(left).Keys + {n};
    assert |Pairs(left').Keys| == |Pairs(left).Keys| + 1;
  }

  lemma PairsNext(left: seq<int>, n: nat)
    requires n < |left|
    ensures |Pairs(left[..n + 1])| == |Pairs(left[..n])| + if left[n] >= 0 then 1 else 0
  {
    var m, m' := Pairs(left[..n]), Pairs(left[..n + 1]);
    if left[n] >= 0 {
      assert m' == m[n := left[n]];
    } else {
      assert m' == m;
    }
  }

  ghost function SeenNodes(seen: seq<bool>): set<nat> {
    set r: nat | r < |seen| && seen[r]
  }

  /** After a fruitless search each matched pair that was seen is covered at its right end. */
  lemma CertifyFailed(g: MatchMatrix, n: nat, left: seq<int>, right: seq<int>, seen: seq<bool>,
                      cl: set<nat>, cr: set<nat>)
    requires Certified(g, n, left, right, cl, cr) && n < g.lhs && |seen| == g.rhs
    requires AllSeen(g, seen, n) && DeadEnds(g, right, seq(|seen|, _ => false), seen)
    ensures Certified(g, n + 1, left, right, cl - Holders(Pairs(left), SeenNodes(seen)), cr + SeenNodes(seen))
  {
    CertifiedTight(g, n, left, right, cl, cr);
    PairsMatch(g, left, right);
    var m, rs := Pairs(left), SeenNodes(seen);
    forall r | r in rs ensures exists l :: l in m && m[l] == r {
      var l: nat := right[r];
      assert l in m && m[l] == r;
    }
    SwapSize(m, cl, cr, rs);
    FailedCovers(g, n, left, right, seen, cl, cr);
  }

  lemma FailedCovers(g: MatchMatrix, n: nat, left: seq<int>, right: seq<int>, seen: seq<bool>,
                     cl: set<nat>, cr: set<nat>)
    requires Mutual(g, left, right) && Covers(g, n, cl, cr) && n < g.lhs && |seen| == g.rhs
    requires AllSeen(g, seen, n) && DeadEnds(g, right, seq(|seen|, _ => false), seen)
    ensures Covers(g, n + 1, cl - Holders(Pairs(left), SeenNodes(seen)), cr + SeenNodes(seen))
  {}

  lemma MarkingShrinks(before: seq<bool>, mid: seq<bool>, r: nat)
    requires Grows(before, mid) && r < |mid| && !mid[r]
    ensures Unseen(mid[r := true]) < Unseen(before) && Grows(before, mid[r := true])
  {
    assert r in Unseen(before) && r !in Unseen(mid[r := true]);
  }

  class MaxBipartiteMatchState {
    const g: MatchMatrix
    const left: array<int>
    const right: array<int>

    constructor (g: MatchMatrix)
      ensures this.g == g && fresh(left) && fresh(right) && left != right
      ensures left[..] == seq(g.lhs, _ => UNUSED) && right[..] == seq(g.rhs, _ => UNUSED)
    {
      this.g := g;
      left := new int[g.lhs](_ => UNUSED);
      right := new int[g.rhs](_ => UNUSED);
    }

    method TryAugment(ilhs: nat, seen: array<bool>) returns (found: bool)
      requires left != right && Startable(g, left[..], right[..], seen[..], ilhs)
      modifies left, right, seen
      decreases Unseen(seen[..])
      ensures Grows(old(seen[..]), seen[..])
      ensures found ==> Augmented(g, old(left[..]), old(right[..]), old(seen[..]), left[..], right[..], ilhs)
      ensures !found ==> left[..] == old(left[..]) && right[..] == old(right[..])
      ensures !found ==> AllSeen(g, seen[..], ilhs) && DeadEnds(g, right[..], old(seen[..]), seen[..])
    {
      ghost var l0, r0, s0 := left[..], right[..], seen[..];
      for irhs := 0 to right.Length
        invariant left[..] == l0 && right[..] == r0
        invariant Grows(s0, seen[..])
        invariant forall r: nat :: r < irhs && g.HasEdge(ilhs, r) ==> seen[..][r]
        invariant DeadEnds(g, r0, s0, seen[..])
      {
        if seen[irhs] || !g.HasEdge(ilhs, irhs) {
          continue;
        }
        ghost var mid := seen[..];
        seen[irhs] := true;
        ghost var marked := seen[..];
        assert marked == mid[irhs := true];
        MarkingShrinks(s0, mid, irhs);
        if right[irhs] == UNUSED {
          LinkFree(g, l0, r0, s0, ilhs, irhs);
          left[ilhs] := irhs;
          right[irhs] := ilhs;
          return true;
        }
        var deeper := TryAugment(right[irhs], seen);
        if deeper {
          LinkPushed(g, l0, r0, s0, marked, ilhs, irhs, left[..], right[..]);
          left[ilhs] := irhs;
          right[irhs] := ilhs;
          return true;
        }
        DeadEnd(g, r0, s0, mid, seen[..], irhs);
      }
      return false;
    }

    method Compute() returns (pairs: seq<(nat, nat)>)
      requires left != right
      requires left[..] == seq(g.lhs, _ => UNUSED) && right[..] == seq(g.rhs, _ => UNUSED)
      modifies left, right
      ensures IsPairing(g, pairs)
      ensures forall other :: IsMatching(g, other) ==> |other| <= |pairs|
    {
      ghost var cl: set<nat>, cr: set<nat> := {}, {};
      assert Pairs(left[..]) == map[];
      for ilhs := 0 to left.Length
        invariant Certified(g, ilhs, left[..], right[..], cl, cr)
      {
        cl, cr := Visit(ilhs, cl, cr);
      }
      pairs := Collect();
      forall other | IsMatching(g, other) ensures |other| <= |pairs| {
        CoverProvesMaximum(g, Pairs(left[..]), cl, cr, other);
      }
    }

    /** One round of the loop: reset the marks and search once from `ilhs`. */
    method Visit(ilhs: nat, ghost cl: set<nat>, ghost cr: set<nat>) returns (ghost cl': set<nat>, ghost cr': set<nat>)
      requires left != right && ilhs < left.Length && Certified(g, ilhs, left[..], right[..], cl, cr)
      modifies left, right
      ensures Certified(g, ilhs + 1, left[..], right[..], cl', cr')
    {
      assert left[ilhs] == UNUSED;
      var seen := new bool[right.Length](_ => false);
      ghost var l0, r0, s0 := left[..], right[..], seen[..];
      assert s0 == seq(|s0|, _ => false);
      var found := TryAugment(ilhs, seen);
      if found {
        CertifyFound(g, ilhs, l0, r0, s0, left[..], right[..], cl, cr);
        cl', cr' := cl + {ilhs}, cr;
      } else {
        CertifyFailed(g, ilhs, left[..], right[..], seen[..], cl, cr);
        cl', cr' := cl - Holders(Pairs(left[..]), SeenNodes(seen[..])), cr + SeenNodes(seen[..]);
      }
    }

    method Collect() returns (pairs: seq<(nat, nat)>)
      requires Mutual(g, left[..], right[..])
      ensures IsPairing(g, pairs) && |pairs| == |Pairs(left[..])|
    {
      pairs := [];
      ghost var was := left[..];
      assert Pairs(was[..0]) == map[];
      for ilhs := 0 to left.Length
        invariant |pairs| == |Pairs(was[..ilhs])|
        invariant forall i :: 0 <= i < |pairs| ==> pairs[i].0 < ilhs && left[pairs[i].0] == pairs[i].1
        invariant forall i, j :: 0 <= i < j < |pairs| ==> pairs[i].0 < pairs[j].0
      {
        PairsNext(was, ilhs);
        if left[ilhs] != UNUSED {
          pairs := pairs + [(ilhs, left[ilhs])];
        }
      }
      assert was[..left.Length] == was;
    }
  }

  /** Returns the edges of a maximum matching. */
  method FindMaxBipartiteMatching(g: MatchMatrix) returns (pairs: seq<(nat, nat)>)
    ensures IsPairing(g, pairs)
    ensures forall other :: IsMatching(g, other) ==> |other| <= |pairs|
  {
    var state := new MaxBipartiteMatchState(g);
    pairs := state.Compute();
  }
}
