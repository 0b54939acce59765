/** The history of a run agrees with the state the run has reached. */
module RaftRecord {
  import opened Basics
  import opened RaftNode
  import opened RaftSystem
  import opened RaftShape

  predicate Finishes(e: Event, election: nat) {
    (e.Won? || e.Lost?) && e.election == election
  }

  ghost predicate Unfinished(h: seq<Event>, election: nat) {
    forall i :: 0 <= i < |h| ==> !Finishes(h[i], election)
  }

  ghost predicate FinishedOnce(h: seq<Event>) {
    forall i, j :: 0 <= i < j < |h| && (h[i].Won? || h[i].Lost?) ==> !Finishes(h[j], h[i].election)
  }

  ghost predicate HasStood(h: seq<Event>, n: string) {
    exists e: nat :: Voted(n, n, e) in h
  }

  ghost predicate HasWon(h: seq<Event>, n: string) {
    exists i :: 0 <= i < |h| && h[i].Won? && h[i].node == n
  }

  /** Everyone counted in an election voted in it. */
  ghost predicate AllVoted(h: seq<Event>, votes: set<string>, candidate: string, election: nat) {
    forall v :: v in votes ==> Voted(v, candidate, election) in h
  }

  /** An event is in order after the events `h`. */
  ghost predicate EventOk(ids: set<string>, h: seq<Event>, elections: nat, e: Event) {
    match e
    case Voted(v, c, k) => v in ids && c in ids && k < elections
    case Released(n, t) => n in ids && t in ids
    case Won(n, k, votes, peers) =>
      && n in ids && votes <= ids && k < elections
      && AllVoted(h, votes, n, k) && 2 * |votes| > |peers|
    case Lost(n, k, votes, peers) =>
      && n in ids && votes <= ids && k < elections
      && AllVoted(h, votes, n, k) && 2 * |votes| <= |peers|
  }

  ghost predicate EventsOk(s: System) {
    && FinishedOnce(s.history)
    && forall i :: 0 <= i < |s.history| ==> EventOk(s.ids, s.history[..i], s.elections, s.history[i])
  }

  ghost predicate PhaseOk(ids: set<string>, h: seq<Event>, elections: nat, n: string, ph: Phase) {
    ph.Electing? ==>
      && ph.election < elections && ph.votes <= ids
      && AllVoted(h, ph.votes, n, ph.election) && Unfinished(h, ph.election)
  }

  predicate Apart(ph: Phase, ph': Phase) {
    ph.Electing? && ph'.Electing? ==> ph.election != ph'.election
  }

  ghost predicate PhasesOk(s: System) {
    && (forall n :: n in s.phases ==> PhaseOk(s.ids, s.history, s.elections, n, s.phases[n]))
    && (forall n, m :: n in s.phases && m in s.phases && n != m ==> Apart(s.phases[n], s.phases[m]))
  }

  ghost predicate ReplyOk(calls: seq<Call>, h: seq<Event>, r: Reply) {
    && r.call < |calls|
    && var c := calls[r.call];
       c.VoteCall? && r.ok ==> Voted(c.to, c.from, c.election) in h
  }

  ghost predicate CallFounded(h: seq<Event>, elections: nat, c: Call) {
    match c
    case VoteCall(f, _, _, k) => HasStood(h, f) && k < elections
    case AppendCall(f, _, _) => HasWon(h, f) && HasStood(h, f)
  }

  /** Votes point at nodes that stood; leaders have won. */
  ghost predicate NodeFounded(h: seq<Event>, n: string, x: NodeState) {
    && (x.voteFor != NOBODY ==> HasStood(h, x.voteFor))
    && (x.status.Leader? ==> HasWon(h, n))
  }

  ghost predicate MessagesOk(s: System) {
    && (forall r :: r in s.replies ==> ReplyOk(s.calls, s.history, r))
    && (forall i :: 0 <= i < |s.calls| ==> CallFounded(s.history, s.elections, s.calls[i]))
  }

  ghost predicate NodesFounded(s: System) {
    forall n :: n in s.nodes ==> NodeFounded(s.history, n, s.nodes[n])
  }

  ghost predicate RecordOk(s: System) {
    ShapeOk(s) && EventsOk(s) && PhasesOk(s) && MessagesOk(s) && NodesFounded(s)
  }

  // ----- growth: what was recorded stays recorded

  lemma Grow(h: seq<Event>, h': seq<Event>)
    requires h <= h'
    ensures forall e :: e in h ==> e in h'
    ensures forall n :: HasStood(h, n) ==> HasStood(h', n)
    ensures forall n :: HasWon(h, n) ==> HasWon(h', n)
    ensures forall vs, c, k :: AllVoted(h, vs, c, k) ==> AllVoted(h', vs, c, k)
  {}

  lemma GrowNode(h: seq<Event>, h': seq<Event>, n: string, x: NodeState)
    requires h <= h' && NodeFounded(h, n, x)
    ensures NodeFounded(h', n, x)
  {}

  lemma GrowPhase(ids: set<string>, h: seq<Event>, h': seq<Event>, k: nat, k': nat, n: string, ph: Phase)
    requires h <= h' && k <= k' && PhaseOk(ids, h, k, n, ph)
    requires ph.Electing? ==> forall i :: |h| <= i < |h'| ==> !Finishes(h'[i], ph.election)
    ensures PhaseOk(ids, h', k', n, ph)
  {}

  // ----- what an effect must bring along

  ghost predicate MessagesEffect(s: System, e: Effect) {
    var h', k' := s.history + e.events, s.elections + e.begun;
    && (forall r :: r in e.replies ==> ReplyOk(s.calls + e.calls, h', r))
    && (forall i :: 0 <= i < |e.calls| ==> CallFounded(h', k', e.calls[i]))
  }

  ghost predicate EventsEffect(s: System, e: Effect)
    requires e.actor in s.phases
  {
    var k' := s.elections + e.begun;
    e.events != [] ==>
      && |e.events| == 1 && EventOk(s.ids, s.history, k', e.events[0])
      && (e.events[0].Won? || e.events[0].Lost? ==>
            s.phases[e.actor].Electing? && e.events[0].election == s.phases[e.actor].election)
  }

  /** An election is new, or goes on, or ends; only its end finishes it. */
  ghost predicate PhaseEffectOk(s: System, e: Effect)
    requires e.actor in s.phases
  {
    var h', k' := s.history + e.events, s.elections + e.begun;
    && PhaseOk(s.ids, h', k', e.actor, e.phase)
    && (e.phase.Electing? ==> || e.phase.election == s.elections
                              || (s.phases[e.actor].Electing? && e.phase.election == s.phases[e.actor].election))
  }

  ghost predicate RecordEffect(s: System, e: Effect) {
    && ShapeEffect(s, e) && e.actor in s.phases
    && MessagesEffect(s, e) && EventsEffect(s, e) && PhaseEffectOk(s, e)
    && NodeFounded(s.history + e.events, e.actor, e.node)
  }

  // ----- installing an effect

  lemma InstallMessages(s: System, e: Effect)
    requires MessagesOk(s) && MessagesEffect(s, e)
    ensures MessagesOk(Install(s, e))
  {
    var s' := Install(s, e);
    Grow(s.history, s'.history);
    forall r | r in s'.replies ensures ReplyOk(s'.calls, s'.history, r) {
      if r in s.replies { assert ReplyOk(s.calls, s.history, r); }
    }
    forall i | 0 <= i < |s'.calls| ensures CallFounded(s'.history, s'.elections, s'.calls[i]) {
      if i < |s.calls| { assert CallFounded(s.history, s.elections, s.calls[i]); }
    }
  }

  lemma InstallFounded(s: System, e: Effect)
    requires NodesFounded(s) && NodeFounded(s.history + e.events, e.actor, e.node)
    ensures NodesFounded(Install(s, e))
  {
    forall n | n in s.nodes && n != e.actor ensures NodeFounded(s.history + e.events, n, s.nodes[n]) {
      GrowNode(s.history, s.history + e.events, n, s.nodes[n]);
    }
  }

  /** The other nodes' elections stay apart from the actor's, before and after. */
  lemma OthersApart(s: System, e: Effect, n: string)
    requires PhasesOk(s) && n in s.phases && e.actor in s.phases && n != e.actor
    requires EventsEffect(s, e) && PhaseEffectOk(s, e)
    ensures Apart(e.phase, s.phases[n]) && Apart(s.phases[n], e.phase)
    ensures PhaseOk(s.ids, s.history + e.events, s.elections + e.begun, n, s.phases[n])
  {
    assert PhaseOk(s.ids, s.history, s.elections, n, s.phases[n]);
    assert Apart(s.phases[e.actor], s.phases[n]);
    GrowPhase(s.ids, s.history, s.history + e.events, s.elections, s.elections + e.begun, n, s.phases[n]);
  }

  lemma InstallPhases(s: System, e: Effect)
    requires PhasesOk(s) && e.actor in s.phases && EventsEffect(s, e) && PhaseEffectOk(s, e)
    ensures PhasesOk(Install(s, e))
  {
    forall n | n in s.phases && n != e.actor
      ensures Apart(e.phase, s.phases[n]) && Apart(s.phases[n], e.phase)
      ensures PhaseOk(s.ids, s.history + e.events, s.elections + e.begun, n, s.phases[n])
    {
      OthersApart(s, e, n);
    }
  }

  lemma InstallFinishes(s: System, e: Effect)
    requires FinishedOnce(s.history) && PhasesOk(s) && e.actor in s.phases && EventsEffect(s, e)
    ensures FinishedOnce(s.history + e.events)
  {
    var h, h' := s.history, s.history + e.events;
    assert PhaseOk(s.ids, h, s.elections, e.actor, s.phases[e.actor]);
    forall i, j | 0 <= i < j < |h'| && (h'[i].Won? || h'[i].Lost?) ensures !Finishes(h'[j], h'[i].election) {
      assert h'[i] == h[i];
      if j < |h| {
        assert h'[j] == h[j];
      } else {
        assert h'[j] == e.events[0] && Finishes(h[i], h[i].election);
      }
    }
  }

  lemma InstallEvents(s: System, e: Effect)
    requires EventsOk(s) && FinishedOnce(s.history + e.events) && e.actor in s.phases && EventsEffect(s, e)
    ensures EventsOk(Install(s, e))
  {
    var h, h', k' := s.history, s.history + e.events, s.elections + e.begun;
    forall i | 0 <= i < |h'| ensures EventOk(s.ids, h'[..i], k', h'[i]) {
      if i < |h| {
        assert h'[i] == h[i] && h'[..i] == h[..i];
        assert EventOk(s.ids, h[..i], s.elections, h[i]);
      } else {
        assert h'[i] == e.events[0] && h'[..i] == h;
      }
    }
  }

  lemma InstallRecord(s: System, e: Effect)
    requires RecordOk(s) && RecordEffect(s, e)
    ensures RecordOk(Install(s, e))
  {
    InstallShape(s, e);
    InstallMessages(s, e);
    InstallFounded(s, e);
    InstallPhases(s, e);
    InstallFinishes(s, e);
    InstallEvents(s, e);
  }

  // ----- every step brings it along

  /** The facts recorded about the actor before the step. */
  lemma ActorFacts(s: System, a: string)
    requires RecordOk(s) && a in s.ids
    ensures NodeOk(s.ids, a, s.nodes[a], s.phases[a]) && WaitOk(a, s.nodes[a], s.phases[a], s.calls)
    ensures PhaseOk(s.ids, s.history, s.elections, a, s.phases[a])
    ensures NodeFounded(s.history, a, s.nodes[a])
  {}

  lemma StandRecord(s: System, n: string)
    requires RecordOk(s) && Enabled(s, Stand(n))
    ensures RecordEffect(s, StandEffect(s, n))
  {
    StepShapeEffect(s, Stand(n));
    var e := StandEffect(s, n);
    var h' := s.history + e.events;
    assert h'[|s.history|] == Voted(n, n, s.elections);
    forall i | 0 <= i < |h'| ensures !Finishes(h'[i], s.elections) {
      if i < |s.history| { assert EventOk(s.ids, s.history[..i], s.elections, s.history[i]); }
    }
  }

  lemma StoodIsKnown(s: System, n: string)
    requires EventsOk(s) && HasStood(s.history, n)
    ensures n in s.ids
  {
    var k: nat :| Voted(n, n, k) in s.history;
    var i :| 0 <= i < |s.history| && s.history[i] == Voted(n, n, k);
    assert EventOk(s.ids, s.history[..i], s.elections, s.history[i]);
  }

  lemma TimeoutRecord(s: System, n: string)
    requires RecordOk(s) && Enabled(s, Timeout(n))
    ensures RecordEffect(s, TimeoutEffect(s, n))
  {
    StepShapeEffect(s, Timeout(n));
    ActorFacts(s, n);
    if s.nodes[n].voteFor != NOBODY {
      StoodIsKnown(s, s.nodes[n].voteFor);
    }
    Grow(s.history, s.history + TimeoutEffect(s, n).events);
  }

  lemma SendRecord(s: System, step: Step)
    requires RecordOk(s) && Enabled(s, step) && (step.AskVote? || step.SendHeartbeat?)
    ensures RecordEffect(s, EffectOf(s, step))
  {
    StepShapeEffect(s, step);
    ActorFacts(s, step.n);
    assert s.history + [] == s.history;
  }

  lemma HandleRecord(s: System, i: nat)
    requires RecordOk(s) && Enabled(s, Handle(i))
    ensures RecordEffect(s, HandleEffect(s, i))
  {
    StepShapeEffect(s, Handle(i));
    var c, e := s.calls[i], HandleEffect(s, i);
    ActorFacts(s, c.to);
    assert CallOk(s.ids, c) && CallFounded(s.history, s.elections, c);
    var h' := s.history + e.events;
    Grow(s.history, h');
    assert e.events != [] ==> h'[|s.history|] == e.events[0];
    assert s.calls + e.calls == s.calls;
  }

  lemma TakeReplyRecord(s: System, n: string, r: Reply)
    requires RecordOk(s) && Enabled(s, TakeReply(n, r))
    ensures RecordEffect(s, TakeReplyEffect(s, n, r))
  {
    StepShapeEffect(s, TakeReply(n, r));
    ActorFacts(s, n);
    assert ReplyOk(s.calls, s.history, r) && CallOk(s.ids, s.calls[r.call]);
    assert s.history + [] == s.history;
  }

  lemma CountRecord(s: System, n: string)
    requires RecordOk(s) && Enabled(s, CountVotes(n))
    ensures RecordEffect(s, CountEffect(s, n))
  {
    StepShapeEffect(s, CountVotes(n));
    ActorFacts(s, n);
    var e := CountEffect(s, n);
    var h' := s.history + e.events;
    Grow(s.history, h');
    assert h'[|s.history|] == e.events[0];
  }

  lemma PhaseOnlyRecord(s: System, step: Step)
    requires RecordOk(s) && Enabled(s, step) && (step.GiveUp? || step.BeginRound? || step.EndRound?)
    ensures RecordEffect(s, EffectOf(s, step))
  {
    StepShapeEffect(s, step);
    ActorFacts(s, step.n);
    assert s.history + [] == s.history;
  }

  lemma StepRecordEffect(s: System, step: Step)
    requires RecordOk(s) && Enabled(s, step)
    ensures RecordEffect(s, EffectOf(s, step))
  {
    match step
    case Timeout(n) => TimeoutRecord(s, n);
    case Stand(n) => StandRecord(s, n);
    case AskVote(_, _) => SendRecord(s, step);
    case Handle(i) => HandleRecord(s, i);
    case TakeReply(n, r) => TakeReplyRecord(s, n, r);
    case CountVotes(n) => CountRecord(s, n);
    case SendHeartbeat(_, _) => SendRecord(s, step);
    case _ => PhaseOnlyRecord(s, step);
  }

  lemma StepRecord(s: System, step: Step)
    requires RecordOk(s)
    ensures RecordOk(Apply(s, step))
  {
    if Enabled(s, step) {
      StepRecordEffect(s, step);
      InstallRecord(s, EffectOf(s, step));
    }
  }

  lemma InitRecord(ids: set<string>)
    requires NOBODY !in ids
    ensures RecordOk(Init(ids))
  {
    InitShape(ids);
  }

  lemma {:induction false} RunRecord(ids: set<string>, steps: seq<Step>)
    requires NOBODY !in ids
    ensures RecordOk(After(ids, steps)) && After(ids, steps).ids == ids
  {
    RunShape(ids, steps);
    if steps == [] {
      InitRecord(ids);
    } else {
      RunRecord(ids, steps[..|steps| - 1]);
      StepRecord(After(ids, steps[..|steps| - 1]), steps[|steps| - 1]);
    }
  }
}
