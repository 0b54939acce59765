/**
 The daemon's two loops, taken apart into steps of the cluster, still do what they
 do in one piece: whatever the other nodes do in between, a candidacy ends as
 `Raft.StandForElection` and a heartbeat round as `Raft.HeartbeatRound` for the
 replies that were taken.
 */
module RaftLoops {
  import opened Basics
  import opened RaftNode
  import opened RaftSystem
  import opened RaftShape
  import opened RaftRuns

  /** The daemon of `n` keeps the mutex from `s` on, through all of `steps`. */
  ghost predicate Locked(s: System, steps: seq<Step>, n: string)
    decreases |steps|
  {
    && Known(s, n) && !s.phases[n].Free?
    && (steps != [] ==> Locked(Apply(s, steps[0]), steps[1..], n))
  }

  /** A reply taken by `n` is noted under the peer that gave it. */
  function Noted(s: System, step: Step, n: string, noted: map<string, Reply>): map<string, Reply> {
    if step.TakeReply? && step.n == n && Enabled(s, step)
    then noted[s.calls[step.reply.call].to := step.reply] else noted
  }

  function Taken(s: System, steps: seq<Step>, n: string, noted: map<string, Reply>): map<string, Reply>
    decreases |steps|
  {
    if steps == [] then noted else Taken(Apply(s, steps[0]), steps[1..], n, Noted(s, steps[0], n, noted))
  }

  /** A peer asked by `n` in this step. */
  function AskedIn(s: System, step: Step, n: string): set<string> {
    if (step.AskVote? || step.SendHeartbeat?) && step.n == n && Enabled(s, step) then {step.peer} else {}
  }

  /** The peers to which `n` sends calls in the steps. */
  function Called(s: System, steps: seq<Step>, n: string): set<string>
    decreases |steps|
  {
    if steps == [] then {} else AskedIn(s, steps[0], n) + Called(Apply(s, steps[0]), steps[1..], n)
  }

  function VoteAnswers(noted: map<string, Reply>): map<string, VoteAnswer> {
    map p | p in noted :: VoteAnswer(noted[p].term, noted[p].ok)
  }

  function AppendAnswers(noted: map<string, Reply>): map<string, AppendAnswer> {
    map p | p in noted :: AppendAnswer(noted[p].term, noted[p].ok)
  }

  ghost predicate AwaitsUnnoted(ph: Phase, calls: seq<Call>, noted: map<string, Reply>)
    requires !ph.Free?
  {
    ph.waiting.Some? ==>
      ph.waiting.value < |calls| && calls[ph.waiting.value].to in ph.asked && calls[ph.waiting.value].to !in noted
  }

  /** In the middle of a loop, with the fields `x` the loop began with. */
  ghost predicate Midway(s: System, n: string, x: NodeState, noted: map<string, Reply>) {
    && Known(s, n) && !s.phases[n].Free? && s.nodes[n] == x
    && var ph := s.phases[n];
       && ph.asked <= x.peers - {n} && noted.Keys <= ph.asked && AwaitsUnnoted(ph, s.calls, noted)
       && (ph.Electing? ==> ph.votes == {n} + Granters(ph.asked, VoteAnswers(noted)))
       && (ph.Beating? ==> forall p :: p in noted ==> noted[p].ok)
  }

  lemma GrantersNoted(asked: set<string>, noted: map<string, Reply>, p: string, r: Reply)
    requires p in asked && p !in noted
    ensures Granters(asked, VoteAnswers(noted[p := r]))
         == Granters(asked, VoteAnswers(noted)) + if r.ok then {p} else {}
  {}

  lemma GrantersAsked(asked: set<string>, noted: map<string, Reply>, p: string)
    requires p !in noted
    ensures Granters(asked + {p}, VoteAnswers(noted)) == Granters(asked, VoteAnswers(noted))
  {}

  /** A step of another node, or one that is not enabled, leaves the loop where it is. */
  lemma OthersStep(s: System, step: Step, n: string, x: NodeState, noted: map<string, Reply>)
    requires Midway(s, n, x, noted) && (Enabled(s, step) ==> EffectOf(s, step).actor != n)
    ensures Midway(Apply(s, step), n, x, noted) && Noted(s, step, n, noted) == noted
  {}

  lemma AskStep(s: System, step: Step, n: string, x: NodeState, noted: map<string, Reply>)
    requires Midway(s, n, x, noted) && Enabled(s, step)
    requires (step.AskVote? || step.SendHeartbeat?) && step.n == n
    ensures Midway(Apply(s, step), n, x, noted)
  {
    GrantersAsked(s.phases[n].asked, noted, step.peer);
    var s' := Apply(s, step);
    assert s'.calls[|s.calls|].to == step.peer;
  }

  lemma ReplyStep(s: System, n: string, r: Reply, x: NodeState, noted: map<string, Reply>)
    requires Midway(s, n, x, noted) && Enabled(s, TakeReply(n, r)) && (s.phases[n].Electing? || r.ok)
    ensures Midway(Apply(s, TakeReply(n, r)), n, x, noted[s.calls[r.call].to := r])
  {
    GrantersNoted(s.phases[n].asked, noted, s.calls[r.call].to, r);
  }

  lemma StepMidway(s: System, step: Step, n: string, x: NodeState, noted: map<string, Reply>)
    requires Midway(s, n, x, noted) && Known(Apply(s, step), n) && !Apply(s, step).phases[n].Free?
    ensures Midway(Apply(s, step), n, x, Noted(s, step, n, noted))
  {
    if !Enabled(s, step) || EffectOf(s, step).actor != n {
      OthersStep(s, step, n, x, noted);
    } else {
      match step
      case AskVote(_, _) => AskStep(s, step, n, x, noted);
      case SendHeartbeat(_, _) => AskStep(s, step, n, x, noted);
      case TakeReply(_, r) => ReplyStep(s, n, r, x, noted);
      case _ =>
    }
  }

  lemma StepAsks(s: System, step: Step, n: string)
    requires Known(s, n) && !s.phases[n].Free? && Known(Apply(s, step), n) && !Apply(s, step).phases[n].Free?
    ensures Apply(s, step).phases[n].asked == s.phases[n].asked + AskedIn(s, step, n)
  {}

  /** Whom the phase lists as asked has been sent a call. */
  lemma {:induction false} PlayAsks(s: System, steps: seq<Step>, n: string)
    requires Locked(s, steps, n)
    ensures Known(Play(s, steps), n) && !Play(s, steps).phases[n].Free?
    ensures Play(s, steps).phases[n].asked == s.phases[n].asked + Called(s, steps, n)
    decreases |steps|
  {
    if steps != [] {
      StepAsks(s, steps[0], n);
      PlayAsks(Apply(s, steps[0]), steps[1..], n);
    }
  }

  lemma {:induction false} PlayMidway(s: System, steps: seq<Step>, n: string, x: NodeState, noted: map<string, Reply>)
    requires Midway(s, n, x, noted) && Locked(s, steps, n)
    ensures Midway(Play(s, steps), n, x, Taken(s, steps, n, noted))
    decreases |steps|
  {
    if steps != [] {
      StepMidway(s, steps[0], n, x, noted);
      PlayMidway(Apply(s, steps[0]), steps[1..], n, x, Noted(s, steps[0], n, noted));
    }
  }

  lemma Begins(s: System, step: Step, n: string)
    requires Enabled(s, step) && (step == Stand(n) || step == BeginRound(n))
    ensures Midway(Apply(s, step), n, if step.Stand? then AfterStanding(s.nodes[n]) else s.nodes[n], map[])
  {
    assert {n} + Granters({}, VoteAnswers(map[])) == {n};
  }

  lemma Ends(s: System, n: string, x: NodeState, noted: map<string, Reply>)
    requires Midway(s, n, x, noted) && Enabled(s, CountVotes(n))
    ensures Apply(s, CountVotes(n)).nodes[n]
         == AfterCounting(x, |{n} + Granters(x.peers - {n}, VoteAnswers(noted))|)
  {
    assert s.phases[n].asked == x.peers - {n};
  }

  lemma AllAsked(s: System, step: Step, n: string, x: NodeState, noted: map<string, Reply>)
    requires Midway(s, n, x, noted) && Enabled(s, step) && (step == CountVotes(n) || step == EndRound(n))
    ensures s.phases[n].asked == x.peers - {n}
  {}

  /** From standing to counting the votes, in any run: every peer is asked, and the grants taken are counted. */
  lemma ElectionInOnePiece(ids: set<string>, before: seq<Step>, during: seq<Step>, n: string)
    requires NOBODY !in ids && Enabled(After(ids, before), Stand(n))
    requires var s := Apply(After(ids, before), Stand(n));
             Locked(s, during, n) && Enabled(Play(s, during), CountVotes(n))
    ensures var s := Apply(After(ids, before), Stand(n));
            var answers := VoteAnswers(Taken(s, during, n, map[]));
            && Called(s, during, n) == s.nodes[n].peers - {n}
            && Apply(Play(s, during), CountVotes(n)).nodes[n] == AfterElection(After(ids, before).nodes[n], answers)
  {
    RunShape(ids, before);
    var s0 := After(ids, before);
    assert NodeOk(ids, n, s0.nodes[n], s0.phases[n]);
    var s, x := Apply(s0, Stand(n)), AfterStanding(s0.nodes[n]);
    Begins(s0, Stand(n), n);
    PlayMidway(s, during, n, x, map[]);
    PlayAsks(s, during, n);
    AllAsked(Play(s, during), CountVotes(n), n, x, Taken(s, during, n, map[]));
    Ends(Play(s, during), n, x, Taken(s, during, n, map[]));
  }

  /** The step that ends a round: all peers were asked, or one rejected. */
  predicate EndsRound(s: System, step: Step, n: string) {
    Enabled(s, step) && (step == EndRound(n) || (step.TakeReply? && step.n == n && !step.reply.ok))
  }

  lemma RoundEnds(s: System, step: Step, n: string, x: NodeState, noted: map<string, Reply>)
    requires Midway(s, n, x, noted) && s.phases[n].Beating? && EndsRound(s, step, n) && x.selfId == n
    ensures n in Apply(s, step).nodes
    ensures RoundOutcome(x, AppendAnswers(Noted(s, step, n, noted)), Apply(s, step).nodes[n])
  {
    var answers := AppendAnswers(Noted(s, step, n, noted));
    if step.TakeReply? {
      var p := s.calls[step.reply.call].to;
      assert p in answers && p in x.peers - {n} && !answers[p].success;
    }
  }

  lemma BeatingStays(s: System, step: Step, n: string)
    requires Known(s, n) && s.phases[n].Beating? && Known(Apply(s, step), n) && !Apply(s, step).phases[n].Free?
    ensures Apply(s, step).phases[n].Beating?
  {}

  lemma {:induction false} BeatingThroughout(s: System, steps: seq<Step>, n: string)
    requires Known(s, n) && s.phases[n].Beating? && Locked(s, steps, n)
    ensures Known(Play(s, steps), n) && Play(s, steps).phases[n].Beating?
    decreases |steps|
  {
    if steps != [] {
      BeatingStays(s, steps[0], n);
      BeatingThroughout(Apply(s, steps[0]), steps[1..], n);
    }
  }

  /** From the beginning of a round to its end, in any run; without a rejection every peer is sent a heartbeat. */
  lemma RoundInOnePiece(ids: set<string>, before: seq<Step>, during: seq<Step>, last: Step, n: string)
    requires NOBODY !in ids && Enabled(After(ids, before), BeginRound(n))
    requires var s := Apply(After(ids, before), BeginRound(n));
             Locked(s, during, n) && EndsRound(Play(s, during), last, n)
    ensures var s := Apply(After(ids, before), BeginRound(n));
            var t := Apply(Play(s, during), last);
            var answers := AppendAnswers(Noted(Play(s, during), last, n, Taken(s, during, n, map[])));
            && n in t.nodes && RoundOutcome(After(ids, before).nodes[n], answers, t.nodes[n])
            && (last.EndRound? ==> Called(s, during, n) == s.nodes[n].peers - {n})
  {
    RunShape(ids, before);
    var s0 := After(ids, before);
    assert NodeOk(ids, n, s0.nodes[n], s0.phases[n]);
    var s := Apply(s0, BeginRound(n));
    Begins(s0, BeginRound(n), n);
    BeatingThroughout(s, during, n);
    PlayMidway(s, during, n, s0.nodes[n], map[]);
    PlayAsks(s, during, n);
    if last.EndRound? {
      AllAsked(Play(s, during), last, n, s0.nodes[n], Taken(s, during, n, map[]));
    }
    RoundEnds(Play(s, during), last, n, s0.nodes[n], Taken(s, during, n, map[]));
  }
}
