/**
 Field by field: in every run, which steps change a node's term, status, vote and
 peers, and to what.  The steps are named by what happens in them, not by the
 operations that perform them.
 */
module RaftFields {
  import opened Basics
  import opened RaftNode
  import opened RaftSystem
  import opened RaftShape

  // ----- what can happen to a node in a step

  /** A follower without a vote runs out of patience. */
  predicate LosesPatience(s: System, step: Step, n: string) {
    step == Timeout(n) && Enabled(s, step) && s.nodes[n].voteFor == NOBODY
  }

  /** A follower runs out of patience with the node it voted for. */
  predicate DropsVote(s: System, step: Step, n: string) {
    step == Timeout(n) && Enabled(s, step) && s.nodes[n].voteFor != NOBODY
  }

  predicate BeginsCandidacy(s: System, step: Step, n: string) {
    step == Stand(n) && Enabled(s, step)
  }

  predicate EndsCandidacy(s: System, step: Step, n: string) {
    step == CountVotes(n) && Enabled(s, step)
  }

  predicate HasMajority(s: System, n: string)
    requires Known(s, n)
  {
    s.phases[n].Electing? && 2 * |s.phases[n].votes| > |s.nodes[n].peers|
  }

  /** The node handles a vote call while it follows nobody. */
  predicate GivesVote(s: System, step: Step, n: string) {
    && step.Handle? && Enabled(s, step) && s.calls[step.call].VoteCall? && s.calls[step.call].to == n
    && s.nodes[n].status.Follower? && s.nodes[n].voteFor == NOBODY
  }

  /** The node handles a heartbeat whose term, as read, is not below its own. */
  predicate Obeys(s: System, step: Step, n: string) {
    && step.Handle? && Enabled(s, step) && s.calls[step.call].AppendCall? && s.calls[step.call].to == n
    && s.nodes[n].term <= ReadTerm(s.calls[step.call].term)
  }

  /** A leader takes a rejection of its heartbeat. */
  predicate StepsDown(s: System, step: Step, n: string) {
    step.TakeReply? && step.n == n && Enabled(s, step) && s.phases[n].Beating? && !step.reply.ok
  }

  // ----- the fields

  ghost predicate TermExact(s: System, step: Step, n: string, x: NodeState, y: NodeState) {
    && (y.term != x.term <==> || BeginsCandidacy(s, step, n)
                              || (Obeys(s, step, n) && ReadTerm(s.calls[step.call].term) != x.term)
                              || (StepsDown(s, step, n) && step.reply.term != x.term))
    && (BeginsCandidacy(s, step, n) ==> y.term == (x.term + 1) % TWO64)
    && (Obeys(s, step, n) ==> y.term == ReadTerm(s.calls[step.call].term))
    && (StepsDown(s, step, n) ==> y.term == step.reply.term)
  }

  ghost predicate StatusExact(s: System, step: Step, n: string, x: NodeState, y: NodeState)
    requires Known(s, n)
  {
    && (y.status.Candidate? && !x.status.Candidate? <==> LosesPatience(s, step, n))
    && (y.status.Leader? && !x.status.Leader? <==> EndsCandidacy(s, step, n) && HasMajority(s, n))
    && (y.status.Follower? && !x.status.Follower? <==>
          || (EndsCandidacy(s, step, n) && !HasMajority(s, n))
          || (Obeys(s, step, n) && !x.status.Follower?)
          || StepsDown(s, step, n))
  }

  ghost predicate VoteExact(s: System, step: Step, n: string, x: NodeState, y: NodeState)
    requires Known(s, n)
  {
    && (y.voteFor != x.voteFor <==>
          || DropsVote(s, step, n) || BeginsCandidacy(s, step, n) || (EndsCandidacy(s, step, n) && !HasMajority(s, n))
          || GivesVote(s, step, n) || (Obeys(s, step, n) && !x.status.Follower?))
    && (DropsVote(s, step, n) || (EndsCandidacy(s, step, n) && !HasMajority(s, n)) ==> y.voteFor == NOBODY)
    && (BeginsCandidacy(s, step, n) ==> y.voteFor == n)
    && (GivesVote(s, step, n) || (Obeys(s, step, n) && !x.status.Follower?) ==> y.voteFor == s.calls[step.call].from)
  }

  ghost predicate PeersExact(s: System, step: Step, n: string, x: NodeState, y: NodeState) {
    && y.selfId == x.selfId
    && y.peers == (if DropsVote(s, step, n) then x.peers - {x.voteFor} else x.peers)
    && y.channels == (if DropsVote(s, step, n) then x.channels - {x.voteFor} else x.channels)
  }

  /** What is sent, with the sender's term, and how a call handled is answered, with the answering node's. */
  ghost predicate MessagesExact(s: System, step: Step, t: System) {
    && t.calls == s.calls + (if !Enabled(s, step) then [] else
         match step
         case AskVote(n, p) => [VoteCall(n, p, s.nodes[n].term, s.phases[n].election)]
         case SendHeartbeat(n, p) => [AppendCall(n, p, s.nodes[n].term)]
         case _ => [])
    && t.replies == s.replies + (if !step.Handle? || !Enabled(s, step) then {} else
         var n := s.calls[step.call].to;
         {Reply(step.call, s.nodes[n].term, GivesVote(s, step, n) || Obeys(s, step, n))})
  }

  // ----- each field in turn

  predicate Acts(s: System, step: Step, n: string) {
    Enabled(s, step) && EffectOf(s, step).actor == n
  }

  lemma NodeAfter(s: System, step: Step, n: string)
    requires n in s.nodes
    ensures n in Apply(s, step).nodes
    ensures Apply(s, step).nodes[n] == if Acts(s, step, n) then EffectOf(s, step).node else s.nodes[n]
  {}

  lemma NothingHappens(s: System, step: Step, n: string)
    requires !Acts(s, step, n) && Known(s, n)
    ensures TermExact(s, step, n, s.nodes[n], s.nodes[n]) && StatusExact(s, step, n, s.nodes[n], s.nodes[n])
    ensures VoteExact(s, step, n, s.nodes[n], s.nodes[n]) && PeersExact(s, step, n, s.nodes[n], s.nodes[n])
  {}

  lemma ActorTerm(s: System, step: Step, n: string)
    requires Acts(s, step, n)
    ensures Known(s, n) && TermExact(s, step, n, s.nodes[n], EffectOf(s, step).node)
  {}

  lemma ActorStatus(s: System, step: Step, n: string)
    requires Acts(s, step, n) && Known(s, n) && NodeOk(s.ids, n, s.nodes[n], s.phases[n])
    ensures StatusExact(s, step, n, s.nodes[n], EffectOf(s, step).node)
  {}

  lemma ActorVote(s: System, step: Step, n: string)
    requires Acts(s, step, n) && Known(s, n) && NodeOk(s.ids, n, s.nodes[n], s.phases[n]) && n != NOBODY
    requires step.Handle? ==> s.calls[step.call].from != n && s.calls[step.call].from != NOBODY
    ensures VoteExact(s, step, n, s.nodes[n], EffectOf(s, step).node)
  {}

  lemma ActorPeers(s: System, step: Step, n: string)
    requires Acts(s, step, n)
    ensures Known(s, n) && PeersExact(s, step, n, s.nodes[n], EffectOf(s, step).node)
  {}

  lemma StepMessages(s: System, step: Step)
    ensures MessagesExact(s, step, Apply(s, step))
  {}

  lemma StepFields(s: System, step: Step, n: string)
    requires ShapeOk(s) && Acts(s, step, n)
    ensures Known(s, n)
    ensures TermExact(s, step, n, s.nodes[n], EffectOf(s, step).node)
    ensures StatusExact(s, step, n, s.nodes[n], EffectOf(s, step).node)
    ensures VoteExact(s, step, n, s.nodes[n], EffectOf(s, step).node)
    ensures PeersExact(s, step, n, s.nodes[n], EffectOf(s, step).node)
  {
    ActorTerm(s, step, n);
    ActorPeers(s, step, n);
    assert NodeOk(s.ids, n, s.nodes[n], s.phases[n]);
    if step.Handle? {
      assert CallOk(s.ids, s.calls[step.call]);
    }
    ActorStatus(s, step, n);
    ActorVote(s, step, n);
  }

  /** In every run every step changes the fields of a node exactly where its code says so. */
  lemma FieldsExact(ids: set<string>, steps: seq<Step>, step: Step, n: string)
    requires NOBODY !in ids && n in ids
    ensures var s, t := After(ids, steps), Apply(After(ids, steps), step);
            && Known(s, n) && n in t.nodes
            && TermExact(s, step, n, s.nodes[n], t.nodes[n])
            && StatusExact(s, step, n, s.nodes[n], t.nodes[n])
            && VoteExact(s, step, n, s.nodes[n], t.nodes[n])
            && PeersExact(s, step, n, s.nodes[n], t.nodes[n])
            && MessagesExact(s, step, t)
  {
    RunShape(ids, steps);
    var s := After(ids, steps);
    StepMessages(s, step);
    NodeAfter(s, step, n);
    if Acts(s, step, n) {
      StepFields(s, step, n);
    } else {
      NothingHappens(s, step, n);
    }
  }
}
