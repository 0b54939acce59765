/**
 Runs put together from smaller ones: an election in which a chosen set of willing
 peers votes and every other call is given up, and followers that time out.
 */
module RaftRuns {
  import opened Basics
  import opened RaftNode
  import opened RaftSystem

  /** `steps` taken in order from `s`. */
  function Play(s: System, steps: seq<Step>): System
    decreases |steps|
  {
    if steps == [] then s else Play(Apply(s, steps[0]), steps[1..])
  }

  lemma {:induction false} PlaySplit(s: System, steps: seq<Step>, more: seq<Step>)
    ensures Play(s, steps + more) == Play(Play(s, steps), more)
    decreases |steps|
  {
    if steps == [] {
      assert steps + more == more;
    } else {
      assert (steps + more)[1..] == steps[1..] + more;
      PlaySplit(Apply(s, steps[0]), steps[1..], more);
    }
  }

  lemma PlayOne(s: System, step: Step)
    ensures Play(s, [step]) == Apply(s, step)
  {}

  lemma PlayTwo(s: System, a: Step, b: Step)
    ensures Play(s, [a, b]) == Apply(Apply(s, a), b)
  {
    PlaySplit(s, [a], [b]);
    assert [a] + [b] == [a, b];
    PlayOne(s, a);
    PlayOne(Apply(s, a), b);
  }

  lemma PlayThree(s: System, a: Step, b: Step, c: Step)
    ensures Play(s, [a, b, c]) == Apply(Apply(Apply(s, a), b), c)
  {
    PlaySplit(s, [a, b], [c]);
    assert [a, b] + [c] == [a, b, c];
    PlayTwo(s, a, b);
    PlayOne(Apply(Apply(s, a), b), c);
  }

  lemma {:induction false} AfterIsPlay(ids: set<string>, steps: seq<Step>)
    ensures After(ids, steps) == Play(Init(ids), steps)
  {
    if steps != [] {
      var front, last := steps[..|steps| - 1], steps[|steps| - 1];
      AfterIsPlay(ids, front);
      PlaySplit(Init(ids), front, [last]);
      assert front + [last] == steps;
      PlayOne(After(ids, front), last);
    }
  }

  /** A run goes on from `s` to `t`; only the nodes in `who` may differ. */
  ghost predicate Elsewhere(s: System, t: System, who: set<string>) {
    && s.ids == t.ids && s.history <= t.history
    && s.nodes.Keys == t.nodes.Keys && s.phases.Keys == t.phases.Keys
    && forall p :: p in s.nodes && p in s.phases && p !in who ==> t.nodes[p] == s.nodes[p] && t.phases[p] == s.phases[p]
  }

  lemma ElsewhereJoin(s: System, u: System, t: System, a: set<string>, b: set<string>, who: set<string>)
    requires Elsewhere(s, u, a) && Elsewhere(u, t, b) && a <= who && b <= who
    ensures Elsewhere(s, t, who)
  {
    forall p | p in s.nodes && p in s.phases && p !in who
      ensures t.nodes[p] == s.nodes[p] && t.phases[p] == s.phases[p]
    {
      assert p !in a && p !in b;
    }
  }

  predicate Willing(s: System, p: string) {
    Known(s, p) && s.phases[p].Free? && Grants(s.nodes[p])
  }

  // ----- a campaign

  predicate Canvassing(s: System, n: string) {
    Known(s, n) && s.phases[n].Electing? && s.phases[n].waiting.None?
  }

  /** Each of `yes` gave its vote to `n`. */
  ghost predicate Gave(s: System, t: System, n: string, yes: set<string>) {
    forall p :: p in yes ==> && Known(s, p) && Known(t, p) && t.phases[p] == s.phases[p]
                             && t.nodes[p] == s.nodes[p].(voteFor := n)
  }

  /** `n` asked all of `ps`; those in `yes` granted their vote, the other calls were given up. */
  ghost predicate Canvassed(s: System, t: System, n: string, ps: set<string>, yes: set<string>) {
    && Canvassing(s, n) && Known(t, n) && t.nodes[n] == s.nodes[n] && t.elections == s.elections
    && t.phases[n] == Electing(s.phases[n].election, s.phases[n].asked + ps, s.phases[n].votes + yes, None)
    && Elsewhere(s, t, yes + {n}) && Gave(s, t, n, yes)
  }

  lemma GaveJoin(s: System, u: System, t: System, n: string, a: set<string>, b: set<string>)
    requires n !in a + b && a !! b && Elsewhere(s, u, a + {n}) && Elsewhere(u, t, b + {n})
    requires Gave(s, u, n, a) && Gave(u, t, n, b)
    ensures Gave(s, t, n, a + b)
  {
    forall p | p in a + b ensures Known(s, p) && Known(t, p) && t.phases[p] == s.phases[p]
                                  && t.nodes[p] == s.nodes[p].(voteFor := n)
    {
      if p in a { assert p !in b + {n}; } else { assert p !in a + {n}; }
    }
  }

  lemma CanvassedJoin(s: System, u: System, t: System, n: string, p: string, ps: set<string>, yes: set<string>)
    requires p in ps && n !in ps && yes <= ps
    requires Canvassed(s, u, n, {p}, yes * {p}) && Canvassed(u, t, n, ps - {p}, yes - {p})
    ensures Canvassed(s, t, n, ps, yes)
  {
    var ph, y, z := s.phases[n], yes * {p}, yes - {p};
    assert ph.asked + {p} + (ps - {p}) == ph.asked + ps && ph.votes + y + z == ph.votes + yes && y + z == yes;
    GaveJoin(s, u, t, n, y, z);
    ElsewhereJoin(s, u, t, y + {n}, z + {n}, yes + {n});
  }

  /** A willing peer is asked, grants, and the reply arrives. */
  lemma AskOne(s: System, n: string, p: string)
    requires Canvassing(s, n) && Willing(s, p) && p != n && p in s.nodes[n].peers && p !in s.phases[n].asked
    ensures Canvassed(s, Apply(Apply(Apply(s, AskVote(n, p)), Handle(|s.calls|)),
                               TakeReply(n, Reply(|s.calls|, s.nodes[p].term, true))), n, {p}, {p})
  {
    var i := |s.calls|;
    var s1 := Apply(s, AskVote(n, p));
    assert s1.calls[i] == VoteCall(n, p, s.nodes[n].term, s.phases[n].election);
    var s2 := Apply(s1, Handle(i));
    assert Reply(i, s.nodes[p].term, true) in s2.replies && s2.phases[n].waiting == Some(i);
  }

  /** A peer is asked and the call given up. */
  lemma SkipOne(s: System, n: string, p: string)
    requires Canvassing(s, n) && p != n && p in s.nodes[n].peers && p !in s.phases[n].asked
    ensures Canvassed(s, Apply(Apply(s, AskVote(n, p)), GiveUp(n)), n, {p}, {})
  {
    assert s.phases[n].votes + {} == s.phases[n].votes;
  }

  lemma PlayAskOne(s: System, n: string, p: string, yes: bool) returns (steps: seq<Step>)
    requires Canvassing(s, n) && p != n && p in s.nodes[n].peers && p !in s.phases[n].asked
    requires yes ==> Willing(s, p)
    ensures Canvassed(s, Play(s, steps), n, {p}, if yes then {p} else {})
  {
    if yes {
      AskOne(s, n, p);
      var r := TakeReply(n, Reply(|s.calls|, s.nodes[p].term, true));
      PlayThree(s, AskVote(n, p), Handle(|s.calls|), r);
      steps := [AskVote(n, p), Handle(|s.calls|), r];
    } else {
      SkipOne(s, n, p);
      PlayTwo(s, AskVote(n, p), GiveUp(n));
      steps := [AskVote(n, p), GiveUp(n)];
    }
  }

  /** `ps` are still to be asked; those in `yes` are willing. */
  ghost predicate Askable(s: System, n: string, ps: set<string>, yes: set<string>) {
    && Canvassing(s, n) && n !in ps && ps <= s.nodes[n].peers && ps !! s.phases[n].asked
    && yes <= ps && forall p :: p in yes ==> Willing(s, p)
  }

  lemma StillAskable(s: System, u: System, n: string, p: string, ps: set<string>, yes: set<string>)
    requires Askable(s, n, ps, yes) && p in ps && Canvassed(s, u, n, {p}, yes * {p})
    ensures Askable(u, n, ps - {p}, yes - {p})
  {
    forall q | q in yes - {p} ensures Willing(u, q) {
      assert Willing(s, q) && q !in yes * {p} + {n};
    }
  }

  lemma CanvassedNone(s: System, n: string)
    requires Canvassing(s, n)
    ensures Canvassed(s, s, n, {}, {})
  {
    assert s.phases[n].asked + {} == s.phases[n].asked && s.phases[n].votes + {} == s.phases[n].votes;
  }

  lemma {:induction false} AskAll(s: System, n: string, ps: set<string>, yes: set<string>) returns (steps: seq<Step>)
    requires Askable(s, n, ps, yes)
    ensures Canvassed(s, Play(s, steps), n, ps, yes)
    decreases |ps|
  {
    if ps == {} {
      steps := [];
      assert yes == {};
      CanvassedNone(s, n);
    } else {
      var p :| p in ps;
      var first := PlayAskOne(s, n, p, p in yes);
      assert (if p in yes then {p} else {}) == yes * {p};
      var u := Play(s, first);
      StillAskable(s, u, n, p, ps, yes);
      var rest := AskAll(u, n, ps - {p}, yes - {p});
      steps := first + rest;
      PlaySplit(s, first, rest);
      CanvassedJoin(s, u, Play(u, rest), n, p, ps, yes);
    }
  }

  /** How the run records the end of an election. */
  function Verdict(n: string, election: nat, votes: set<string>, peers: set<string>): Event {
    if Elected(|votes|, peers) then Won(n, election, votes, peers) else Lost(n, election, votes, peers)
  }

  /** `n` stood and was voted for by `yes` alone. */
  ghost predicate Polled(s: System, t: System, n: string, yes: set<string>) {
    && Known(s, n) && Known(t, n) && t.phases[n].Free? && t.elections == s.elections + 1
    && t.nodes[n] == AfterCounting(AfterStanding(s.nodes[n]), |yes + {n}|)
    && Elsewhere(s, t, yes + {n}) && Gave(s, t, n, yes)
    && |s.history| < |t.history|
    && t.history[|t.history| - 1] == Verdict(n, s.elections, yes + {n}, s.nodes[n].peers)
  }

  /** `n` has just begun its candidacy. */
  ghost predicate Standing(s: System, t: System, n: string) {
    && Known(s, n) && Known(t, n) && Elsewhere(s, t, {n}) && t.elections == s.elections + 1
    && t.nodes[n] == AfterStanding(s.nodes[n]).(status := Candidate)
    && t.phases[n] == Electing(s.elections, {}, {n}, None)
  }

  lemma Stands(s: System, n: string)
    requires Willing(s, n) && s.nodes[n].selfId == n
    ensures Standing(s, Apply(Apply(s, Timeout(n)), Stand(n)), n)
  {
    assert Elsewhere(s, Apply(s, Timeout(n)), {n});
  }

  /** `n` has just counted `votes`. */
  ghost predicate Counted(s: System, t: System, n: string, election: nat, votes: set<string>) {
    && Known(s, n) && Known(t, n) && Elsewhere(s, t, {n}) && t.elections == s.elections && t.phases[n].Free?
    && t.nodes[n] == AfterCounting(s.nodes[n], |votes|)
    && t.history == s.history + [Verdict(n, election, votes, s.nodes[n].peers)]
  }

  lemma Counts(s: System, n: string)
    requires Canvassing(s, n) && s.nodes[n].peers - {n} <= s.phases[n].asked
    ensures Counted(s, Apply(s, CountVotes(n)), n, s.phases[n].election, s.phases[n].votes)
  {}

  /**
   Whatever subset of its peers is willing, a willing node can stand and get
   exactly their votes, and nothing else changes.
   */
  lemma Campaign(s: System, n: string, yes: set<string>) returns (steps: seq<Step>)
    requires Willing(s, n) && s.nodes[n].selfId == n && yes <= s.nodes[n].peers - {n}
    requires forall p :: p in yes ==> Willing(s, p)
    ensures Polled(s, Play(s, steps), n, yes)
  {
    var ps := s.nodes[n].peers - {n};
    Stands(s, n);
    var s2 := Apply(Apply(s, Timeout(n)), Stand(n));
    forall p | p in yes ensures Willing(s2, p) { assert Willing(s, p) && p !in {n}; }
    var asking := AskAll(s2, n, ps, yes);
    var s3 := Play(s2, asking);
    assert {} + ps == ps && {n} + yes == yes + {n};
    Counts(s3, n);
    AllTogether(s, s2, s3, Apply(s3, CountVotes(n)), n, ps, yes);
    steps := [Timeout(n), Stand(n)] + (asking + [CountVotes(n)]);
    PlaySplit(s, [Timeout(n), Stand(n)], asking + [CountVotes(n)]);
    PlayTwo(s, Timeout(n), Stand(n));
    PlaySplit(s2, asking, [CountVotes(n)]);
    PlayOne(s3, CountVotes(n));
  }

  lemma AllTogether(s: System, s2: System, s3: System, t: System, n: string, ps: set<string>, yes: set<string>)
    requires Standing(s, s2, n) && Canvassed(s2, s3, n, ps, yes) && n !in yes
    requires Counted(s3, t, n, s.elections, yes + {n})
    ensures Polled(s, t, n, yes)
  {
    ElsewhereJoin(s, s2, s3, {n}, yes + {n}, yes + {n});
    ElsewhereJoin(s, s3, t, yes + {n}, {n}, yes + {n});
    forall p | p in yes
      ensures Known(s, p) && Known(t, p) && t.phases[p] == s.phases[p] && t.nodes[p] == s.nodes[p].(voteFor := n)
    {
      assert p !in {n};
    }
  }

  // ----- dropping the votes

  ghost predicate TimedOut(s: System, t: System, p: string) {
    Known(s, p) && Known(t, p) && t.phases[p] == s.phases[p] && t.nodes[p] == AfterTimeout(s.nodes[p])
  }

  /** Every member of `ps` timed out on the vote it held. */
  ghost predicate AllDropped(s: System, t: System, ps: set<string>) {
    Elsewhere(s, t, ps) && forall p :: p in ps ==> TimedOut(s, t, p)
  }

  predicate Loyal(s: System, p: string) {
    Known(s, p) && s.phases[p].Free? && s.nodes[p].status.Follower? && s.nodes[p].voteFor != NOBODY
  }

  lemma DropOne(s: System, p: string, ps: set<string>)
    requires p in ps && forall q :: q in ps ==> Loyal(s, q)
    ensures AllDropped(s, Apply(s, Timeout(p)), {p})
    ensures forall q :: q in ps - {p} ==> Loyal(Apply(s, Timeout(p)), q)
  {
    assert Loyal(s, p);
    forall q | q in ps - {p} ensures Loyal(Apply(s, Timeout(p)), q) { assert Loyal(s, q); }
  }

  lemma {:induction false} DropAll(s: System, ps: set<string>) returns (steps: seq<Step>)
    requires forall p :: p in ps ==> Loyal(s, p)
    ensures AllDropped(s, Play(s, steps), ps)
    decreases |ps|
  {
    steps := [];
    if ps != {} {
      var p :| p in ps;
      DropOne(s, p, ps);
      var u := Apply(s, Timeout(p));
      var rest := DropAll(u, ps - {p});
      steps := [Timeout(p)] + rest;
      PlaySplit(s, [Timeout(p)], rest);
      PlayOne(s, Timeout(p));
      DroppedJoin(s, u, Play(u, rest), p, ps - {p});
      assert ps - {p} + {p} == ps;
    }
  }

  lemma TimedOutLater(s: System, u: System, t: System, who: set<string>, p: string)
    requires Elsewhere(s, u, who) && p !in who && TimedOut(u, t, p)
    ensures TimedOut(s, t, p)
  {}

  lemma TimedOutStays(s: System, u: System, t: System, who: set<string>, p: string)
    requires TimedOut(s, u, p) && Elsewhere(u, t, who) && p !in who
    ensures TimedOut(s, t, p)
  {}

  lemma DroppedJoin(s: System, u: System, t: System, p: string, ps: set<string>)
    requires AllDropped(s, u, {p}) && AllDropped(u, t, ps) && p !in ps
    ensures AllDropped(s, t, ps + {p})
  {
    forall q | q in ps + {p} ensures TimedOut(s, t, q) {
      if q in ps { TimedOutLater(s, u, t, {p}, q); } else { TimedOutStays(s, u, t, ps, q); }
    }
    ElsewhereJoin(s, u, t, {p}, ps, ps + {p});
  }
}
