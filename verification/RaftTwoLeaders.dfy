/**
 One leader per term, the promise of section 5.2 of Ongaro and Ousterhout's "In
 Search of an Understandable Consensus Algorithm", does not hold of this code.  One
 node is elected, its voters time out on their votes and drop it, and another node
 is elected by them in the same term.  The second node may even be one that never
 dropped the first, and so still counts the whole cluster as its peers.
 */
module RaftTwoLeaders {
  import opened Basics
  import opened RaftNode
  import opened RaftSystem
  import opened RaftShape
  import opened RaftRecord
  import opened RaftPeers
  import opened RaftSafety
  import opened RaftRuns

  /** A node that voted for `a`, if it is one of `m`, and dropped it again. */
  function Lapsed(ids: set<string>, a: string, m: set<string>, p: string): NodeState {
    if p in m then AfterTimeout(Initial(p, ids).(voteFor := a)) else Initial(p, ids)
  }

  /** `a` was voted for by `m`, and all of them dropped it. */
  ghost predicate Deserted(s: System, ids: set<string>, a: string, m: set<string>) {
    && s.ids == s.nodes.Keys == s.phases.Keys == ids && a in ids
    && s.nodes[a] == AfterCounting(AfterStanding(Initial(a, ids)), |m + {a}|)
    && (forall p :: p in ids && p != a ==> s.phases[p].Free? && s.nodes[p] == Lapsed(ids, a, m, p))
    && Verdict(a, 0, m + {a}, ids) in s.history
  }

  lemma FirstVoters(ids: set<string>, s: System, a: string, m: set<string>, p: string)
    requires NOBODY !in ids && a in ids && m <= ids - {a} && Polled(Init(ids), s, a, m) && p in m
    ensures Loyal(s, p) && s.nodes[p] == Initial(p, ids).(voteFor := a)
  {}

  lemma DesertedNode(ids: set<string>, s: System, t: System, a: string, m: set<string>, p: string)
    requires NOBODY !in ids && a in ids && m <= ids - {a} && p in ids && p != a
    requires Polled(Init(ids), s, a, m) && AllDropped(s, t, m)
    ensures p in t.nodes && p in t.phases && t.phases[p].Free? && t.nodes[p] == Lapsed(ids, a, m, p)
  {
    if p in m {
      FirstVoters(ids, s, a, m, p);
      assert TimedOut(s, t, p);
    } else {
      assert p !in m + {a};
    }
  }

  lemma Desertion(ids: set<string>, a: string, m: set<string>) returns (steps: seq<Step>)
    requires NOBODY !in ids && a in ids && m <= ids - {a}
    ensures Deserted(Play(Init(ids), steps), ids, a, m)
  {
    var s0 := Init(ids);
    var first := Campaign(s0, a, m);
    var s := Play(s0, first);
    forall p | p in m ensures Loyal(s, p) { FirstVoters(ids, s, a, m, p); }
    var second := DropAll(s, m);
    steps := first + second;
    PlaySplit(s0, first, second);
    DesertedIs(ids, s, Play(s, second), a, m);
  }

  lemma DesertedIs(ids: set<string>, s: System, t: System, a: string, m: set<string>)
    requires NOBODY !in ids && a in ids && m <= ids - {a}
    requires Polled(Init(ids), s, a, m) && AllDropped(s, t, m)
    ensures Deserted(t, ids, a, m)
  {
    assert a !in m;
    forall p | p in ids && p != a ensures t.phases[p].Free? && t.nodes[p] == Lapsed(ids, a, m, p) {
      DesertedNode(ids, s, t, a, m, p);
    }
    assert t.history[|s.history| - 1] == Verdict(a, 0, m + {a}, ids);
  }

  /** `a` was voted for by `m`, which dropped it, and then `b` by `m`. */
  ghost predicate TakenOver(t: System, ids: set<string>, a: string, b: string, m: set<string>) {
    && t.ids == t.nodes.Keys == ids && a in ids && b in ids
    && t.nodes[a] == AfterCounting(AfterStanding(Initial(a, ids)), |m + {a}|)
    && t.nodes[b] == AfterCounting(AfterStanding(Lapsed(ids, a, m, b)), |m + {b}|)
    && exists i, j, k: nat :: && 0 <= i < j < |t.history| && t.history[i] == Verdict(a, 0, m + {a}, ids)
                              && t.history[j] == Verdict(b, k, m + {b}, Lapsed(ids, a, m, b).peers)
  }

  lemma SecondVoters(s: System, ids: set<string>, a: string, m: set<string>, p: string)
    requires Deserted(s, ids, a, m) && NOBODY !in ids && p in ids && p != a
    ensures Willing(s, p) && s.nodes[p].selfId == p && s.nodes[p].peers == if p in m then ids - {a} else ids
  {}

  lemma TakeOver(ids: set<string>, a: string, b: string, m: set<string>) returns (steps: seq<Step>)
    requires NOBODY !in ids && a in ids && b in ids && a != b && m <= ids - {a}
    ensures TakenOver(After(ids, steps), ids, a, b, m)
  {
    var first := Desertion(ids, a, m);
    var s := Play(Init(ids), first);
    SecondVoters(s, ids, a, m, b);
    forall p | p in m - {b} ensures Willing(s, p) { SecondVoters(s, ids, a, m, p); }
    var second := Campaign(s, b, m - {b});
    steps := first + second;
    PlaySplit(Init(ids), first, second);
    AfterIsPlay(ids, steps);
    TakenOverIs(ids, s, Play(s, second), a, b, m);
  }

  lemma TakenOverIs(ids: set<string>, s: System, t: System, a: string, b: string, m: set<string>)
    requires Deserted(s, ids, a, m) && b in ids && a != b && m <= ids - {a} && Polled(s, t, b, m - {b})
    ensures TakenOver(t, ids, a, b, m)
  {
    assert m - {b} + {b} == m + {b} && a !in m - {b} + {b};
    var i :| 0 <= i < |s.history| && s.history[i] == Verdict(a, 0, m + {a}, ids);
    assert t.history[i] == s.history[i];
    assert t.history[|t.history| - 1] == Verdict(b, s.elections, m + {b}, Lapsed(ids, a, m, b).peers);
  }

  // ----- one leader per term

  predicate OneLeaderPerTerm(s: System) {
    forall n, m | n in s.nodes && m in s.nodes && s.nodes[n].status.Leader? && s.nodes[m].status.Leader? ::
      s.nodes[n].term == s.nodes[m].term ==> n == m
  }

  lemma BothLead(t: System, ids: set<string>, a: string, b: string)
    requires NOBODY !in ids && TakenOver(t, ids, a, b, ids - {a}) && a != b
    ensures !OneLeaderPerTerm(t)
  {
    assert ids - {a} + {a} == ids && ids - {a} + {b} == ids - {a};
    assert Lapsed(ids, a, ids - {a}, b).peers == ids - {a};
    assert t.nodes[a].status.Leader? && t.nodes[b].status.Leader? && t.nodes[a].term == t.nodes[b].term;
  }

  lemma LoneLeader(s: System)
    requires s.nodes.Keys == s.ids && |s.ids| <= 1
    ensures OneLeaderPerTerm(s)
  {
    forall n, m | n in s.nodes && m in s.nodes ensures n == m {
      SubsetSize({n, m}, s.ids);
    }
  }

  lemma TwoOf(ids: set<string>) returns (a: string, b: string)
    requires |ids| >= 2
    ensures a in ids && b in ids && a != b && |ids - {a, b}| == |ids| - 2
  {
    a :| a in ids;
    assert |ids - {a}| == |ids| - 1;
    b :| b in ids - {a};
    assert ids - {a, b} == ids - {a} - {b};
  }

  lemma TwoLeaders(ids: set<string>) returns (steps: seq<Step>)
    requires NOBODY !in ids && |ids| >= 2
    ensures !OneLeaderPerTerm(After(ids, steps))
  {
    var a, b := TwoOf(ids);
    steps := TakeOver(ids, a, b, ids - {a});
    BothLead(After(ids, steps), ids, a, b);
  }

  lemma LoneNode(ids: set<string>, steps: seq<Step>)
    requires NOBODY !in ids && |ids| <= 1
    ensures OneLeaderPerTerm(After(ids, steps))
  {
    RunShape(ids, steps);
    LoneLeader(After(ids, steps));
  }

  /** Every run has at most one leader per term if and only if the cluster has at most one node. */
  lemma OneLeaderPerTermExact(ids: set<string>)
    requires NOBODY !in ids
    ensures (forall steps :: OneLeaderPerTerm(After(ids, steps))) <==> |ids| <= 1
  {
    if |ids| <= 1 {
      forall steps ensures OneLeaderPerTerm(After(ids, steps)) {
        LoneNode(ids, steps);
      }
    } else {
      var steps := TwoLeaders(ids);
    }
  }

  // ----- two wins with all peers

  /** Two nodes lead in one term, and both count the whole cluster. */
  ghost predicate FullRivals(s: System, i: nat, j: nat) {
    && FullWins(s, i, j)
    && var n, m := s.history[i].node, s.history[j].node;
       && n != m && n in s.nodes && m in s.nodes && s.nodes[n].term == s.nodes[m].term
       && s.nodes[n].status.Leader? && s.nodes[m].status.Leader? && s.nodes[n].peers == s.nodes[m].peers == s.ids
  }

  ghost predicate FullWinsAfter(ids: set<string>, steps: seq<Step>, i: nat, j: nat) {
    FullWins(After(ids, steps), i, j)
  }

  ghost predicate FullRivalsAfter(ids: set<string>, steps: seq<Step>, i: nat, j: nat) {
    FullRivals(After(ids, steps), i, j)
  }

  lemma RivalsIs(t: System, ids: set<string>, a: string, b: string) returns (i: nat, j: nat)
    requires |ids| >= 3 && a != b && |ids - {a, b}| == |ids| - 2 && TakenOver(t, ids, a, b, ids - {a, b})
    ensures FullRivals(t, i, j)
  {
    var m := ids - {a, b};
    assert |m + {a}| == |m| + 1 && |m + {b}| == |m| + 1;
    var k: nat;
    i, j, k :| && 0 <= i < j < |t.history| && t.history[i] == Verdict(a, 0, m + {a}, ids)
               && t.history[j] == Verdict(b, k, m + {b}, Lapsed(ids, a, m, b).peers);
  }

  lemma SmallMajority(ids: set<string>, votes: set<string>)
    requires |ids| <= 2 && votes <= ids && 2 * |votes| > |ids|
    ensures votes == ids
  {
    SubsetSize(votes, ids);
  }

  /** Whoever wins with all peers has dropped nobody before. */
  lemma FullWinNoRelease(s: System, j: nat, r: nat)
    requires EventsOk(s) && CountedExact(s.ids, s.history)
    requires r < j < |s.history| && s.history[j].Won? && s.history[j].peers == s.ids && s.history[r].Released?
    ensures s.history[r].node != s.history[j].node
  {
    var h := s.history;
    assert EventOk(s.ids, h[..r], s.elections, h[r]);
    assert h[..j][r] == h[r] && h[r].target in Dropped(h[..j], h[r].node);
  }

  lemma ReleasedBefore(h: seq<Event>, n: string, i: nat, j: nat) returns (r: nat)
    requires i < j < |h| && h[i].Won? && h[j].Won? && VotedTwiceWithRelease(h, n, i, j)
    ensures r < j && h[r].Released? && h[r].node == n
  {
    r :| 0 <= r < j && h[r].Released? && h[r].node == n;
  }

  lemma FullVotes(s: System, i: nat)
    requires EventsOk(s) && |s.ids| <= 2 && i < |s.history| && s.history[i].Won? && s.history[i].peers == s.ids
    ensures s.history[i].votes == s.ids && s.history[i].node in s.ids
  {
    assert EventOk(s.ids, s.history[..i], s.elections, s.history[i]);
    SmallMajority(s.ids, s.history[i].votes);
  }

  /** In a cluster of two a win takes both votes, so the second winner has dropped a node. */
  lemma PairCannotWinFully(s: System, i: nat, j: nat)
    requires SafetyOk(s) && CountedExact(s.ids, s.history) && FullWins(s, i, j)
    ensures |s.ids| >= 3
  {
    if |s.ids| <= 2 {
      FullVotes(s, i);
      FullVotes(s, j);
      FullWinsShare(s, i, j);
      var r := ReleasedBefore(s.history, s.history[j].node, i, j);
      FullWinNoRelease(s, j, r);
    }
  }

  lemma FullRivalsRun(ids: set<string>) returns (steps: seq<Step>, i: nat, j: nat)
    requires NOBODY !in ids && |ids| >= 3
    ensures FullRivalsAfter(ids, steps, i, j) && FullWinsAfter(ids, steps, i, j)
  {
    var a, b := TwoOf(ids);
    steps := TakeOver(ids, a, b, ids - {a, b});
    i, j := RivalsIs(After(ids, steps), ids, a, b);
  }

  lemma FullWinsSize(ids: set<string>, steps: seq<Step>, i: nat, j: nat)
    requires NOBODY !in ids && FullWinsAfter(ids, steps, i, j)
    ensures |ids| >= 3
  {
    RunSafety(ids, steps);
    RunPeersExact(ids, steps);
    PairCannotWinFully(After(ids, steps), i, j);
  }

  /**
   Two elections can be won by nodes that count the whole cluster if and only if it
   has at least three nodes, and then both winners can lead it in one term.
   */
  lemma FullWinsExact(ids: set<string>)
    requires NOBODY !in ids
    ensures |ids| >= 3 <==> exists steps, i, j :: FullWinsAfter(ids, steps, i, j)
    ensures |ids| >= 3 <==> exists steps, i, j :: FullRivalsAfter(ids, steps, i, j)
  {
    if |ids| >= 3 {
      var steps, i, j := FullRivalsRun(ids);
    }
    forall steps, i: nat, j: nat | FullWinsAfter(ids, steps, i, j) ensures |ids| >= 3 {
      FullWinsSize(ids, steps, i, j);
    }
    assert forall steps, i, j :: FullRivalsAfter(ids, steps, i, j) ==> FullWinsAfter(ids, steps, i, j);
  }
}
