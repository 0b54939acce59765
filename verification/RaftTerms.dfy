/** Terms: wrapped 64-bit counters, narrowed to `int` on the way through `AppendMsg`. */
module RaftTerms {
  import opened Basics
  import opened RaftNode
  import opened RaftSystem
  import opened RaftShape
  import opened RaftFields

  /** The most elections for which no term outgrows a 32-bit `int`. */
  const ELECTION_LIMIT: nat := 0x8000_0000

  predicate TermOk(t: Term, elections: nat) {
    t == INITIAL_TERM || t < elections
  }

  /** A rejected heartbeat was answered with a term above the one it was read as. */
  ghost predicate ReplyTermOk(s: System, r: Reply) {
    && TermOk(r.term, s.elections)
    && (r.call < |s.calls| && s.calls[r.call].AppendCall? && !r.ok ==> r.term > ReadTerm(s.calls[r.call].term))
    && r.call < |s.calls|
  }

  /** Candidates in an election and leaders have counted up from their election. */
  ghost predicate NodeTermOk(x: NodeState, ph: Phase, elections: nat) {
    && TermOk(x.term, elections)
    && (x.status.Leader? || ph.Electing? ==> x.term < elections)
  }

  ghost predicate TermsOk(s: System) {
    && ShapeOk(s)
    && (forall n :: n in s.ids ==> NodeTermOk(s.nodes[n], s.phases[n], s.elections))
    && (forall i :: 0 <= i < |s.calls| ==> s.calls[i].term < s.elections)
    && (forall r :: r in s.replies ==> ReplyTermOk(s, r))
  }

  lemma ReadTermOk(t: Term, elections: nat)
    requires TermOk(t, elections) && elections <= ELECTION_LIMIT
    ensures ReadTerm(t) == t
  {}

  ghost predicate TermsEffect(s: System, e: Effect) {
    var k' := s.elections + e.begun;
    && ShapeEffect(s, e) && NodeTermOk(e.node, e.phase, k')
    && (forall i :: 0 <= i < |e.calls| ==> e.calls[i].term < k')
    && (forall r :: r in e.replies ==> ReplyTermOk(s, r))
  }

  lemma StepTermsEffect(s: System, step: Step)
    requires TermsOk(s) && Enabled(s, step) && s.elections <= ELECTION_LIMIT
    ensures TermsEffect(s, EffectOf(s, step))
  {
    StepShapeEffect(s, step);
    var a := EffectOf(s, step).actor;
    assert NodeOk(s.ids, a, s.nodes[a], s.phases[a]) && NodeTermOk(s.nodes[a], s.phases[a], s.elections);
    match step
    case Handle(i) => ReadTermOk(s.calls[i].term, s.elections);
    case TakeReply(_, r) => assert ReplyTermOk(s, r);
    case _ =>
  }

  lemma InstallTerms(s: System, e: Effect)
    requires TermsOk(s) && TermsEffect(s, e)
    ensures TermsOk(Install(s, e))
  {
    InstallShape(s, e);
    var s' := Install(s, e);
    forall r | r in s'.replies ensures ReplyTermOk(s', r) {
      assert ReplyTermOk(s, r);
    }
    forall n | n in s.ids && n != e.actor ensures NodeTermOk(s.nodes[n], s.phases[n], s'.elections) {
      assert NodeTermOk(s.nodes[n], s.phases[n], s.elections);
    }
  }

  lemma StepTerms(s: System, step: Step)
    requires TermsOk(s) && s.elections <= ELECTION_LIMIT
    ensures TermsOk(Apply(s, step))
  {
    if Enabled(s, step) {
      StepTermsEffect(s, step);
      InstallTerms(s, EffectOf(s, step));
    }
  }

  /**
   In every run with at most 2^31 candidacies, each term held by a node or carried
   in a message is 2^64-1 or below the number of candidacies begun, so the `int`
   in `AppendMsg` loses nothing.
   */
  lemma {:induction false} RunTerms(ids: set<string>, steps: seq<Step>)
    requires NOBODY !in ids && After(ids, steps).elections <= ELECTION_LIMIT
    ensures TermsOk(After(ids, steps)) && NarrowingLossless(After(ids, steps))
  {
    var s := After(ids, steps);
    if steps == [] {
      InitShape(ids);
    } else {
      var front := steps[..|steps| - 1];
      RunGrows(ids, steps, |front|);
      RunTerms(ids, front);
      StepTerms(After(ids, front), steps[|steps| - 1]);
    }
    TermsLossless(s);
  }

  /** Every heartbeat sent is read with the term it carries. */
  ghost predicate NarrowingLossless(s: System) {
    forall i :: 0 <= i < |s.calls| && s.calls[i].AppendCall? ==> ReadTerm(s.calls[i].term) == s.calls[i].term
  }

  lemma TermsLossless(s: System)
    requires TermsOk(s) && s.elections <= ELECTION_LIMIT
    ensures NarrowingLossless(s)
  {
    forall i | 0 <= i < |s.calls| ensures ReadTerm(s.calls[i].term) == s.calls[i].term {
      ReadTermOk(s.calls[i].term, s.elections);
    }
  }

  /**
   Within the limit a node's term never decreases, except where a candidacy wraps
   2^64-1 to 0; any other candidacy adds one; a leader that steps down keeps its
   vote for itself and adopts a term above the one it led.
   */
  lemma TermsRise(ids: set<string>, steps: seq<Step>, step: Step, n: string)
    requires NOBODY !in ids && n in ids
    requires After(ids, steps).elections <= ELECTION_LIMIT
    ensures n in After(ids, steps).nodes && n in Apply(After(ids, steps), step).nodes
    ensures TermMove(After(ids, steps), step, n, After(ids, steps).nodes[n], Apply(After(ids, steps), step).nodes[n])
  {
    RunTerms(ids, steps);
    var s := After(ids, steps);
    if Enabled(s, step) && EffectOf(s, step).actor == n {
      ActorTermMoves(s, step);
    }
  }

  ghost predicate TermMove(s: System, step: Step, n: string, x: NodeState, y: NodeState) {
    var stands := step == Stand(n) && Enabled(s, step);
    && (y.term < x.term <==> stands && x.term == INITIAL_TERM)
    && (stands ==> y.term == if x.term == INITIAL_TERM then 0 else x.term + 1)
    && (StepsDown(s, step, n) ==> y.term > x.term && y.status.Follower? && y.voteFor == n)
  }

  lemma ActorTermMoves(s: System, step: Step)
    requires TermsOk(s) && s.elections <= ELECTION_LIMIT && Enabled(s, step)
    ensures var e := EffectOf(s, step);
            e.actor in s.nodes && TermMove(s, step, e.actor, s.nodes[e.actor], e.node)
  {
    var n := EffectOf(s, step).actor;
    assert NodeOk(s.ids, n, s.nodes[n], s.phases[n]);
    match step
    case TakeReply(_, r) =>
      assert WaitOk(n, s.nodes[n], s.phases[n], s.calls);
      assert ReplyTermOk(s, r);
      ReadTermOk(s.calls[r.call].term, s.elections);
    case _ =>
  }

  /**
   Within the limit a heartbeat is judged by the terms as sent.  A node that
   accepts it follows in the sender's term, and votes for the sender if it was a
   candidate or a leader; a node that rejects it does not change.
   */
  lemma HeartbeatJudged(ids: set<string>, steps: seq<Step>, i: nat)
    requires NOBODY !in ids && After(ids, steps).elections <= ELECTION_LIMIT
    requires Enabled(After(ids, steps), Handle(i)) && After(ids, steps).calls[i].AppendCall?
    ensures Judged(After(ids, steps), Apply(After(ids, steps), Handle(i)), i)
  {
    RunTerms(ids, steps);
  }

  ghost predicate Judged(s: System, s': System, i: nat)
    requires i < |s.calls| && s.calls[i].AppendCall?
  {
    var c := s.calls[i];
    && c.to in s.nodes && c.to in s'.nodes
    && var x, y := s.nodes[c.to], s'.nodes[c.to];
       && Reply(i, x.term, x.term <= c.term) in s'.replies
       && (x.term > c.term ==> y == x)
       && (x.term <= c.term ==>
             && y.status.Follower? && y.term == c.term
             && y.voteFor == if x.status.Follower? then x.voteFor else c.from)
  }

  /** The sender of call `i`, if it still waits for it, obeys the rejection `r`. */
  ghost predicate Deposed(s: System, i: nat, r: Reply)
    requires i < |s.calls|
  {
    var n := s.calls[i].from;
    Known(s, n) && s.phases[n].Beating? && s.phases[n].waiting == Some(i) ==>
      var t := Apply(s, TakeReply(n, r));
      n in t.nodes && t.nodes[n].status.Follower? && t.nodes[n].term == r.term
  }

  /**
   Within the limit a node still in its first term, 2^64-1, rejects every
   heartbeat, and the reply makes a leader that takes it a follower in that term.
   */
  lemma FreshNodeRejects(ids: set<string>, steps: seq<Step>, i: nat)
    requires NOBODY !in ids && After(ids, steps).elections <= ELECTION_LIMIT
    requires var s := After(ids, steps);
             && Enabled(s, Handle(i)) && s.calls[i].AppendCall? && s.nodes[s.calls[i].to].term == INITIAL_TERM
    ensures var s' := Apply(After(ids, steps), Handle(i));
            var r := Reply(i, INITIAL_TERM, false);
            r in s'.replies && i < |s'.calls| && Deposed(s', i, r)
  {
    RunTerms(ids, steps);
    HeartbeatJudged(ids, steps, i);
    var s := After(ids, steps);
    assert s.calls[i].term < s.elections;
    var s' := Apply(s, Handle(i));
    assert Reply(i, INITIAL_TERM, false) in s'.replies;
  }
}
