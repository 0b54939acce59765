/**
 Bipartite graphs, matchings and vertex covers: the theory behind
 `MaxBipartiteMatch`.  A cover of the same size as a matching proves the matching
 maximum, and meets every matched pair in exactly one end.
 */
module BipartiteMatching {
  import opened Basics

  /** Which elements (left) satisfy which matchers (right). */
  datatype MatchMatrix = MatchMatrix(lhs: nat, rhs: nat, edges: set<(nat, nat)>) {
    predicate HasEdge(l: nat, r: nat) {
      l < lhs && r < rhs && (l, r) in edges
    }
  }

  ghost predicate Injective(m: map<nat, nat>) {
    forall k, l :: k in m && l in m && k != l ==> m[k] != m[l]
  }

  /** Each left node in the domain is paired with a right node of its own. */
  ghost predicate IsMatching(g: MatchMatrix, m: map<nat, nat>) {
    && (forall l :: l in m ==> g.HasEdge(l, m[l]))
    && Injective(m)
  }

  /** The same as a list of edges: no node occurs twice on its side. */
  ghost predicate IsPairing(g: MatchMatrix, pairs: seq<(nat, nat)>) {
    && (forall i :: 0 <= i < |pairs| ==> g.HasEdge(pairs[i].0, pairs[i].1))
    && (forall i, j :: 0 <= i < j < |pairs| ==> pairs[i].0 != pairs[j].0 && pairs[i].1 != pairs[j].1)
  }

  /** Every edge leaving one of the first `n` left nodes has an end in the cover. */
  ghost predicate Covers(g: MatchMatrix, n: nat, cl: set<nat>, cr: set<nat>) {
    forall l: nat, r: nat :: l < n && g.HasEdge(l, r) ==> l in cl || r in cr
  }

  ghost function Image(m: map<nat, nat>, ls: set<nat>): set<nat> {
    set l | l in ls && l in m :: m[l]
  }

  lemma {:induction false} ImageSize(m: map<nat, nat>, ls: set<nat>)
    requires Injective(m) && ls <= m.Keys
    ensures |Image(m, ls)| == |ls|
  {
    if ls != {} {
      var l :| l in ls;
      ImageSize(m, ls - {l});
      assert m[l] !in Image(m, ls - {l});
      assert Image(m, ls) == Image(m, ls - {l}) + {m[l]};
    }
  }

  /** A cover is at least as large as any matching it covers. */
  lemma WeakDuality(g: MatchMatrix, m: map<nat, nat>, cl: set<nat>, cr: set<nat>)
    requires IsMatching(g, m)
    requires forall l :: l in m ==> l in cl || m[l] in cr
    ensures |m| <= |cl| + |cr|
    ensures |m| == |cl| + |cr| ==> cl <= m.Keys && cr == Image(m, m.Keys - cl)
  {
    var left := m.Keys * cl;
    var right := m.Keys - cl;
    assert m.Keys == left + right;
    ImageSize(m, right);
    SubsetSize(left, cl);
    SubsetSize(Image(m, right), cr);
  }

  /** A cover as small as the matching meets each matched pair in exactly one end. */
  lemma TightCover(g: MatchMatrix, m: map<nat, nat>, cl: set<nat>, cr: set<nat>)
    requires IsMatching(g, m) && |m| == |cl| + |cr|
    requires forall l :: l in m ==> l in cl || m[l] in cr
    ensures cl <= m.Keys
    ensures forall l :: l in m ==> (l in cl <==> m[l] !in cr)
    ensures forall r :: r in cr ==> exists l :: l in m && m[l] == r
  {
    WeakDuality(g, m, cl, cr);
  }

  /** A matching with a cover of its size is as large as any matching of the graph. */
  lemma CoverProvesMaximum(g: MatchMatrix, m: map<nat, nat>, cl: set<nat>, cr: set<nat>, other: map<nat, nat>)
    requires Covers(g, g.lhs, cl, cr) && |m| == |cl| + |cr| && IsMatching(g, other)
    ensures |other| <= |m|
  {
    WeakDuality(g, other, cl, cr);
  }

  /** The left nodes matched into `rs`. */
  ghost function Holders(m: map<nat, nat>, rs: set<nat>): set<nat> {
    set l | l in m && m[l] in rs
  }

  /** The pairs of `rs` covered on the left are those not covered on the right. */
  lemma MovedImage(m: map<nat, nat>, cl: set<nat>, cr: set<nat>, rs: set<nat>)
    requires forall l :: l in m ==> (l in cl <==> m[l] !in cr)
    requires forall r :: r in rs ==> exists l :: l in m && m[l] == r
    ensures Image(m, cl * Holders(m, rs)) == rs - cr
  {
    forall r | r in rs - cr ensures r in Image(m, cl * Holders(m, rs)) {
      var l :| l in m && m[l] == r;
      assert l in cl * Holders(m, rs);
    }
  }

  /** Covering the pairs of `rs` at their right ends instead keeps the size of a tight cover. */
  lemma SwapSize(m: map<nat, nat>, cl: set<nat>, cr: set<nat>, rs: set<nat>)
    requires Injective(m) && cl <= m.Keys
    requires forall l :: l in m ==> (l in cl <==> m[l] !in cr)
    requires forall r :: r in rs ==> exists l :: l in m && m[l] == r
    ensures |cl - Holders(m, rs)| + |cr + rs| == |cl| + |cr|
  {
    var moved := cl * Holders(m, rs);
    MovedImage(m, cl, cr, rs);
    ImageSize(m, moved);
    SplitSize(cl, Holders(m, rs));
    SplitSize(cr, rs);
  }
}
