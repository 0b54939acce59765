/**
 How many candidacies the narrowing in `AppendMsg` bears.  A node that loses 2^31
 elections, wins the next one and sends a heartbeat has that heartbeat read with
 another term.
 */
module RaftLimit {
  import opened Basics
  import opened RaftNode
  import opened RaftSystem
  import opened RaftShape
  import opened RaftTerms
  import opened RaftRuns

  /** Nobody has ever voted for another node; `n` has lost `k` elections. */
  ghost predicate Beaten(s: System, ids: set<string>, n: string, k: nat) {
    && s.ids == s.nodes.Keys == s.phases.Keys == ids && n in ids && s.elections == k < TWO64
    && (forall p :: p in ids ==> s.phases[p].Free?)
    && (forall p :: p in ids && p != n ==> s.nodes[p] == Initial(p, ids))
    && s.nodes[n] == Initial(n, ids).(term := if k == 0 then INITIAL_TERM else k - 1)
  }

  lemma LoseAgain(ids: set<string>, s: System, t: System, n: string, k: nat)
    requires Beaten(s, ids, n, k) && |ids| >= 2 && k + 1 < TWO64 && Polled(s, t, n, {})
    ensures Beaten(t, ids, n, k + 1)
  {
    assert {} + {n} == {n};
  }

  lemma {:induction false} LoseMany(ids: set<string>, n: string, k: nat) returns (steps: seq<Step>)
    requires NOBODY !in ids && n in ids && |ids| >= 2 && k < TWO64
    ensures Beaten(Play(Init(ids), steps), ids, n, k)
  {
    if k == 0 {
      steps := [];
    } else {
      var front := LoseMany(ids, n, k - 1);
      var s := Play(Init(ids), front);
      var last := Campaign(s, n, {});
      LoseAgain(ids, s, Play(s, last), n, k - 1);
      steps := front + last;
      PlaySplit(Init(ids), front, last);
    }
  }

  lemma WinNext(ids: set<string>, s: System, n: string, k: nat) returns (steps: seq<Step>)
    requires NOBODY !in ids && Beaten(s, ids, n, k)
    ensures Polled(s, Play(s, steps), n, ids - {n})
  {
    steps := Campaign(s, n, ids - {n});
  }

  /** `n` leads in term `k` and is about to send its heartbeats. */
  ghost predicate Leading(s: System, n: string, p: string, k: Term) {
    && Known(s, n) && s.phases[n].Free? && s.nodes[n].status.Leader? && s.nodes[n].term == k
    && p in s.nodes[n].peers && p != n
  }

  lemma WinnerLeads(ids: set<string>, s: System, t: System, n: string, p: string, k: nat)
    requires Beaten(s, ids, n, k) && p in ids && p != n && Polled(s, t, n, ids - {n})
    ensures Leading(t, n, p, k) && t.elections == k + 1
  {
    assert ids - {n} + {n} == ids;
  }

  lemma Beats(s: System, n: string, p: string, k: Term)
    requires Leading(s, n, p, k)
    ensures var t := Apply(Apply(s, BeginRound(n)), SendHeartbeat(n, p));
            t.calls == s.calls + [AppendCall(n, p, k)] && t.elections == s.elections
  {}

  /** For every term there is a run that begins one candidacy more and sends a heartbeat of that term. */
  lemma HeartbeatOfTerm(ids: set<string>, k: Term) returns (steps: seq<Step>)
    requires NOBODY !in ids && |ids| >= 2
    ensures var s := After(ids, steps);
            && s.elections == k + 1 && s.calls != []
            && s.calls[|s.calls| - 1].AppendCall? && s.calls[|s.calls| - 1].term == k
  {
    var n :| n in ids;
    assert |ids - {n}| == |ids| - 1;
    var p :| p in ids - {n};
    var losing := LoseMany(ids, n, k);
    var s := Play(Init(ids), losing);
    var winning := WinNext(ids, s, n, k);
    var t := Play(s, winning);
    WinnerLeads(ids, s, t, n, p, k);
    Beats(t, n, p, k);
    PlayTwo(t, BeginRound(n), SendHeartbeat(n, p));
    PlaySplit(s, winning, [BeginRound(n), SendHeartbeat(n, p)]);
    steps := losing + (winning + [BeginRound(n), SendHeartbeat(n, p)]);
    PlaySplit(Init(ids), losing, winning + [BeginRound(n), SendHeartbeat(n, p)]);
    AfterIsPlay(ids, steps);
  }

  /** Runs of at most `limit` candidacies are judged by the terms as sent. */
  ghost predicate LosslessWithin(ids: set<string>, limit: nat) {
    forall steps :: After(ids, steps).elections <= limit ==> NarrowingLossless(After(ids, steps))
  }

  lemma LoneNodeSilent(ids: set<string>, steps: seq<Step>)
    requires NOBODY !in ids && |ids| <= 1
    ensures After(ids, steps).calls == []
  {
    RunShape(ids, steps);
    var s := After(ids, steps);
    if s.calls != [] {
      var c := s.calls[0];
      assert CallOk(ids, c);
      SubsetSize({c.from, c.to}, ids);
    }
  }

  lemma LimitSuffices(ids: set<string>, steps: seq<Step>)
    requires NOBODY !in ids && (After(ids, steps).elections <= ELECTION_LIMIT || |ids| <= 1)
    ensures NarrowingLossless(After(ids, steps))
  {
    if |ids| <= 1 { LoneNodeSilent(ids, steps); } else { RunTerms(ids, steps); }
  }

  /** The number of candidacies the narrowing bears: 2^31 where there is anybody to send a heartbeat to. */
  lemma LimitExact(ids: set<string>, limit: nat)
    requires NOBODY !in ids
    ensures LosslessWithin(ids, limit) <==> limit <= ELECTION_LIMIT || |ids| <= 1
  {
    if limit <= ELECTION_LIMIT || |ids| <= 1 {
      forall steps | After(ids, steps).elections <= limit ensures NarrowingLossless(After(ids, steps)) {
        LimitSuffices(ids, steps);
      }
    } else {
      var steps := HeartbeatOfTerm(ids, ELECTION_LIMIT);
      ReadTermExact(ELECTION_LIMIT);
      assert !NarrowingLossless(After(ids, steps));
    }
  }
}
