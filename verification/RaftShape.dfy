/** The shape of reachable states, and what a node's fields say about its vote. */
module RaftShape {
  import opened Basics
  import opened RaftNode
  import opened RaftSystem

  ghost predicate CallOk(ids: set<string>, c: Call) {
    c.from in ids && c.to in ids && c.from != c.to
  }

  /** The call a daemon waits for is its own, of its own kind. */
  ghost predicate WaitOk(n: string, x: NodeState, ph: Phase, calls: seq<Call>) {
    !ph.Free? && ph.waiting.Some? ==>
      && ph.waiting.value < |calls|
      && var c := calls[ph.waiting.value];
         && c.from == n && c.term == x.term
         && (ph.Electing? ==> c.VoteCall? && c.election == ph.election)
         && (ph.Beating? ==> c.AppendCall?)
  }

  /** What holds of a node's own fields, by the phase it is in. */
  ghost predicate NodeOk(ids: set<string>, n: string, x: NodeState, ph: Phase) {
    && x.selfId == n && x.peers <= ids
    && ChannelsMatchPeers(x)
    && match ph
       case Free => (x.status.Leader? ==> x.voteFor == n) && (x.status.Candidate? ==> x.voteFor == NOBODY)
       case Electing(_, _, _, _) => x.status.Candidate? && x.voteFor == n
       case Beating(_, _) => x.status.Leader? && x.voteFor == n
  }

  ghost predicate ShapeOk(s: System) {
    && NOBODY !in s.ids
    && s.nodes.Keys == s.ids && s.phases.Keys == s.ids
    && (forall i :: 0 <= i < |s.calls| ==> CallOk(s.ids, s.calls[i]))
    && (forall n :: n in s.ids ==>
          NodeOk(s.ids, n, s.nodes[n], s.phases[n]) && WaitOk(n, s.nodes[n], s.phases[n], s.calls))
  }

  ghost predicate ShapeEffect(s: System, e: Effect) {
    && e.actor in s.ids && |e.events| <= 1
    && (forall i :: 0 <= i < |e.calls| ==> CallOk(s.ids, e.calls[i]))
    && NodeOk(s.ids, e.actor, e.node, e.phase) && WaitOk(e.actor, e.node, e.phase, s.calls + e.calls)
  }

  lemma StepShapeEffect(s: System, step: Step)
    requires ShapeOk(s) && Enabled(s, step)
    ensures ShapeEffect(s, EffectOf(s, step))
  {
    match step
    case Handle(i) => HandleShape(s, i);
    case AskVote(n, p) => SendShape(s, n, p, VoteCall(n, p, s.nodes[n].term, s.phases[n].election));
    case SendHeartbeat(n, p) => SendShape(s, n, p, AppendCall(n, p, s.nodes[n].term));
    case _ => OwnShape(s, step);
  }

  /** The steps of the daemon that send nothing. */
  lemma OwnShape(s: System, step: Step)
    requires ShapeOk(s) && Enabled(s, step) && !step.Handle? && !step.AskVote? && !step.SendHeartbeat?
    ensures ShapeEffect(s, EffectOf(s, step))
  {
    var x, ph := s.nodes[step.n], s.phases[step.n];
    assert NodeOk(s.ids, step.n, x, ph) && WaitOk(step.n, x, ph, s.calls);
    assert s.calls + [] == s.calls;
    StubTableKept(x, NOBODY, if step.TakeReply? then step.reply.term else 0, if ph.Electing? then |ph.votes| else 0);
  }

  lemma HandleShape(s: System, i: nat)
    requires ShapeOk(s) && Enabled(s, Handle(i))
    ensures ShapeEffect(s, HandleEffect(s, i))
  {
    var c := s.calls[i];
    assert CallOk(s.ids, c) && NodeOk(s.ids, c.to, s.nodes[c.to], s.phases[c.to]);
    StubTableKept(s.nodes[c.to], c.from, c.term, 0);
  }

  lemma SendShape(s: System, n: string, p: string, c: Call)
    requires ShapeOk(s) && Known(s, n) && !s.phases[n].Free? && p in s.nodes[n].peers && p != n
    requires c.from == n && c.to == p && c.term == s.nodes[n].term
    requires s.phases[n].Electing? ==> c.VoteCall? && c.election == s.phases[n].election
    requires s.phases[n].Beating? ==> c.AppendCall?
    ensures ShapeEffect(s, SendEffect(s, n, p, c))
  {}

  lemma InstallShape(s: System, e: Effect)
    requires ShapeOk(s) && ShapeEffect(s, e)
    ensures ShapeOk(Install(s, e))
  {
    var s' := Install(s, e);
    forall n | n in s.ids
      ensures NodeOk(s.ids, n, s'.nodes[n], s'.phases[n]) && WaitOk(n, s'.nodes[n], s'.phases[n], s'.calls)
    {
      if n != e.actor {
        assert NodeOk(s.ids, n, s.nodes[n], s.phases[n]) && WaitOk(n, s.nodes[n], s.phases[n], s.calls);
      }
    }
  }

  lemma StepShape(s: System, step: Step)
    requires ShapeOk(s)
    ensures ShapeOk(Apply(s, step)) && Apply(s, step).ids == s.ids
  {
    if Enabled(s, step) {
      StepShapeEffect(s, step);
      InstallShape(s, EffectOf(s, step));
    }
  }

  lemma InitShape(ids: set<string>)
    requires NOBODY !in ids
    ensures ShapeOk(Init(ids))
  {
    forall n | n in ids ensures NodeOk(ids, n, Initial(n, ids), Free) {
      StubTableOpened(n, ids);
    }
  }

  lemma {:induction false} RunShape(ids: set<string>, steps: seq<Step>)
    requires NOBODY !in ids
    ensures ShapeOk(After(ids, steps)) && After(ids, steps).ids == ids
  {
    if steps == [] {
      InitShape(ids);
    } else {
      RunShape(ids, steps[..|steps| - 1]);
      StepShape(After(ids, steps[..|steps| - 1]), steps[|steps| - 1]);
    }
  }
}
