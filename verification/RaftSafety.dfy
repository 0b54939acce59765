/**
 Election safety, as the code provides it.

 `Vote` ignores terms, so elections are not made exclusive by terms.  They are
 made exclusive by votes held: a vote is given only when none is held, and a vote
 given in an election that is not lost is let go only by timing out on it.
 */
module RaftSafety {
  import opened Basics
  import opened RaftNode
  import opened RaftSystem
  import opened RaftShape
  import opened RaftRecord
  import opened RaftPeers

  ghost predicate IsLost(h: seq<Event>, election: nat) {
    exists i :: 0 <= i < |h| && h[i].Lost? && h[i].election == election
  }

  /** `n` dropped a held vote after event `lo` and before event `hi`. */
  ghost predicate ReleasedBetween(h: seq<Event>, n: string, lo: int, hi: int) {
    exists r :: 0 <= lo < r < hi <= |h| && h[r].Released? && h[r].node == n
  }

  ghost predicate NeverReleased(h: seq<Event>) {
    forall r :: 0 <= r < |h| ==> !h[r].Released?
  }

  predicate Held(x: NodeState, ph: Phase, election: nat) {
    x.voteFor != NOBODY && (ph.Electing? ==> ph.election == election)
  }

  /** A vote in an election not lost was released since, or the voter still holds a vote. */
  ghost predicate VoteKept(s: System, a: nat)
    requires a < |s.history| && s.history[a].Voted?
  {
    var e := s.history[a];
    !IsLost(s.history, e.election) ==>
      || ReleasedBetween(s.history, e.voter, a, |s.history|)
      || (Known(s, e.voter) && Held(s.nodes[e.voter], s.phases[e.voter], e.election))
  }

  ghost predicate VotesKept(s: System) {
    forall a :: 0 <= a < |s.history| && s.history[a].Voted? ==> VoteKept(s, a)
  }

  /** Two votes of one node, the earlier in an election not lost, have a release between them. */
  ghost predicate VotesApart(h: seq<Event>) {
    forall a, b | 0 <= a < b < |h| && h[a].Voted? && h[b].Voted? && h[a].voter == h[b].voter ::
      !IsLost(h, h[a].election) ==> ReleasedBetween(h, h[a].voter, a, b)
  }

  ghost predicate SafetyOk(s: System) {
    RecordOk(s) && VotesKept(s) && VotesApart(s.history)
  }

  lemma GrowLost(h: seq<Event>, h': seq<Event>, k: nat)
    requires h <= h' && IsLost(h, k)
    ensures IsLost(h', k)
  {}

  lemma GrowReleased(h: seq<Event>, h': seq<Event>, n: string, lo: int, hi: int, hi': int)
    requires h <= h' && ReleasedBetween(h, n, lo, hi) && hi <= hi' <= |h'|
    ensures ReleasedBetween(h', n, lo, hi')
  {}

  // ----- what an effect does to votes

  /** A node that votes held no vote before, and holds this one after. */
  ghost predicate VotingEffect(s: System, e: Effect)
    requires e.actor in s.nodes && e.actor in s.phases
  {
    e.events != [] && e.events[0].Voted? ==>
      && e.events[0].voter == e.actor
      && s.phases[e.actor].Free? && s.nodes[e.actor].voteFor == NOBODY
      && Held(e.node, e.phase, e.events[0].election) && e.node.voteFor == e.events[0].candidate
  }

  predicate Releases(e: Effect) {
    e.events != [] && e.events[0].Released? && e.events[0].node == e.actor
  }

  predicate Loses(s: System, e: Effect)
    requires e.actor in s.phases
  {
    && e.events != [] && e.events[0].Lost?
    && s.phases[e.actor].Electing? && e.events[0].election == s.phases[e.actor].election
  }

  /** A held vote is let go only by a release or by losing the election it was given in. */
  ghost predicate HoldingEffect(s: System, e: Effect)
    requires e.actor in s.nodes && e.actor in s.phases
  {
    s.nodes[e.actor].voteFor != NOBODY ==>
      || Releases(e) || Loses(s, e)
      || (&& e.node.voteFor != NOBODY
          && (e.phase.Electing? ==> s.phases[e.actor].Electing? && e.phase.election == s.phases[e.actor].election))
  }

  ghost predicate SafetyEffect(s: System, e: Effect) {
    && RecordEffect(s, e) && e.actor in s.nodes
    && VotingEffect(s, e) && HoldingEffect(s, e)
  }

  /** A vote is given by a node that stands, or by one that handles a call. */
  lemma StepVotingEffect(s: System, step: Step)
    requires ShapeOk(s) && Enabled(s, step)
    ensures Known(s, EffectOf(s, step).actor) && VotingEffect(s, EffectOf(s, step))
  {
    match step
    case Stand(n) => assert NodeOk(s.ids, n, s.nodes[n], s.phases[n]);
    case Handle(i) => assert CallOk(s.ids, s.calls[i]);
    case _ =>
  }

  lemma StepHoldingEffect(s: System, step: Step)
    requires ShapeOk(s) && Enabled(s, step)
    ensures Known(s, EffectOf(s, step).actor) && HoldingEffect(s, EffectOf(s, step))
  {
    match step
    case Stand(n) => assert NodeOk(s.ids, n, s.nodes[n], s.phases[n]);
    case Handle(i) => assert CallOk(s.ids, s.calls[i]);
    case _ =>
  }

  lemma StepSafetyEffect(s: System, step: Step)
    requires RecordOk(s) && Enabled(s, step)
    ensures SafetyEffect(s, EffectOf(s, step))
  {
    StepRecordEffect(s, step);
    StepVotingEffect(s, step);
    StepHoldingEffect(s, step);
  }

  lemma InstallApart(s: System, e: Effect)
    requires VotesKept(s) && VotesApart(s.history) && SafetyEffect(s, e)
    ensures VotesApart(s.history + e.events)
  {
    var h, h' := s.history, s.history + e.events;
    forall a, b | 0 <= a < b < |h'| && h'[a].Voted? && h'[b].Voted? && h'[a].voter == h'[b].voter
                  && !IsLost(h', h'[a].election)
      ensures ReleasedBetween(h', h'[a].voter, a, b)
    {
      assert h'[a] == h[a];
      if IsLost(h, h[a].election) { GrowLost(h, h', h[a].election); }
      if b < |h| {
        assert h'[b] == h[b];
        GrowReleased(h, h', h[a].voter, a, b, b);
      } else {
        assert h'[b] == e.events[0];
        assert VoteKept(s, a);
        GrowReleased(h, h', h[a].voter, a, |h|, b);
      }
    }
  }

  lemma InstallKept(s: System, e: Effect)
    requires VotesKept(s) && SafetyEffect(s, e)
    ensures VotesKept(Install(s, e))
  {
    var s' := Install(s, e);
    forall a | 0 <= a < |s'.history| && s'.history[a].Voted? ensures VoteKept(s', a) {
      if a < |s.history| {
        KeepVote(s, e, a);
      } else {
        assert s'.history[a] == e.events[0];
      }
    }
  }

  lemma KeepVote(s: System, e: Effect, a: nat)
    requires VotesKept(s) && SafetyEffect(s, e)
    requires a < |s.history| && s.history[a].Voted?
    ensures VoteKept(Install(s, e), a)
  {
    var h, h' := s.history, s.history + e.events;
    var v, k := h[a].voter, h[a].election;
    assert h'[a] == h[a] && VoteKept(s, a);
    if IsLost(h, k) {
      GrowLost(h, h', k);
    } else if ReleasedBetween(h, v, a, |h|) {
      GrowReleased(h, h', v, a, |h|, |h'|);
    } else if v == e.actor {
      assert e.events != [] ==> h'[|h|] == e.events[0];
      if Releases(e) {
        assert ReleasedBetween(h', v, a, |h'|);
      } else if Loses(s, e) {
        assert IsLost(h', k);
      }
    }
  }

  lemma StepSafety(s: System, step: Step)
    requires SafetyOk(s)
    ensures SafetyOk(Apply(s, step))
  {
    if Enabled(s, step) {
      var e := EffectOf(s, step);
      StepSafetyEffect(s, step);
      InstallRecord(s, e);
      InstallApart(s, e);
      InstallKept(s, e);
    }
  }

  lemma {:induction false} RunSafety(ids: set<string>, steps: seq<Step>)
    requires NOBODY !in ids
    ensures SafetyOk(After(ids, steps)) && After(ids, steps).ids == ids
  {
    RunRecord(ids, steps);
    if steps == [] {
      assert Init(ids).history == [];
    } else {
      RunSafety(ids, steps[..|steps| - 1]);
      StepSafety(After(ids, steps[..|steps| - 1]), steps[|steps| - 1]);
    }
  }

  // ----- two elections won

  lemma MajoritiesMeet(ids: set<string>, v: set<string>, w: set<string>)
    requires v <= ids && w <= ids && 2 * |v| > |ids| && 2 * |w| > |ids|
    ensures v * w != {}
  {
    if v * w == {} {
      assert |v + w| == |v| + |w|;
      SubsetSize(v + w, ids);
    }
  }

  /** `n` voted for the winners at `i` and `j`, and between its two votes it dropped a held vote. */
  ghost predicate VotedTwiceWithRelease(h: seq<Event>, n: string, i: nat, j: nat)
    requires i < j < |h| && h[i].Won? && h[j].Won?
  {
    exists a, b :: && 0 <= a < i && h[a] == Voted(n, h[i].node, h[i].election)
                   && 0 <= b < j && h[b] == Voted(n, h[j].node, h[j].election)
                   && (ReleasedBetween(h, n, a, b) || ReleasedBetween(h, n, b, a))
  }

  lemma WonNotLost(h: seq<Event>, i: nat)
    requires FinishedOnce(h) && i < |h| && h[i].Won?
    ensures !IsLost(h, h[i].election)
  {}

  /** Two full wins in the history of a safe state. */
  ghost predicate FullWins(s: System, i: nat, j: nat) {
    && i < j < |s.history| && s.history[i].Won? && s.history[j].Won?
    && s.history[i].peers == s.ids && s.history[j].peers == s.ids
  }

  /** Some node voted in both, and all that did dropped a vote in between. */
  ghost predicate SharedReleased(h: seq<Event>, i: nat, j: nat)
    requires i < j < |h| && h[i].Won? && h[j].Won?
  {
    && h[i].votes * h[j].votes != {}
    && forall n :: n in h[i].votes * h[j].votes ==> VotedTwiceWithRelease(h, n, i, j)
  }

  lemma FullWinsShare(s: System, i: nat, j: nat)
    requires SafetyOk(s) && FullWins(s, i, j)
    ensures SharedReleased(s.history, i, j)
  {
    var h := s.history;
    assert EventOk(s.ids, h[..i], s.elections, h[i]) && EventOk(s.ids, h[..j], s.elections, h[j]);
    MajoritiesMeet(s.ids, h[i].votes, h[j].votes);
    forall n | n in h[i].votes * h[j].votes ensures VotedTwiceWithRelease(h, n, i, j) {
      SharedVoter(h, i, j, n);
    }
  }

  lemma SharedVoter(h: seq<Event>, i: nat, j: nat, n: string)
    requires FinishedOnce(h) && VotesApart(h) && i < j < |h| && h[i].Won? && h[j].Won?
    requires Voted(n, h[i].node, h[i].election) in h[..i] && Voted(n, h[j].node, h[j].election) in h[..j]
    ensures VotedTwiceWithRelease(h, n, i, j)
  {
    WonNotLost(h, i);
    WonNotLost(h, j);
    var a :| 0 <= a < i && h[a] == Voted(n, h[i].node, h[i].election);
    var b :| 0 <= b < j && h[b] == Voted(n, h[j].node, h[j].election);
    assert Finishes(h[j], h[j].election);
  }

  /**
   In every run: if two elections were won, each by a node whose `peers_` was
   still the whole cluster, then the two majorities share a node, and every shared
   node dropped a held vote between its two votes.
   */
  lemma TwoWinsNeedRelease(ids: set<string>, steps: seq<Step>, i: nat, j: nat)
    requires NOBODY !in ids && FullWins(After(ids, steps), i, j)
    ensures After(ids, steps).ids == ids && SharedReleased(After(ids, steps).history, i, j)
  {
    RunSafety(ids, steps);
    FullWinsShare(After(ids, steps), i, j);
  }

  // ----- no vote released yet: one leader

  ghost predicate WinsFull(s: System) {
    forall i :: 0 <= i < |s.history| && s.history[i].Won? ==> s.history[i].peers == s.ids
  }

  lemma NeverReleasedBefore(s: System, step: Step)
    requires NeverReleased(Apply(s, step).history)
    ensures NeverReleased(s.history)
  {
    var h' := Apply(s, step).history;
    StepGrows(s, step);
    forall r | 0 <= r < |s.history| ensures !s.history[r].Released? {
      assert s.history[r] == h'[r];
    }
  }

  /** Nobody dropped anybody, so every election was counted against the whole cluster. */
  lemma RunWinsFull(ids: set<string>, steps: seq<Step>)
    requires NOBODY !in ids && NeverReleased(After(ids, steps).history)
    ensures WinsFull(After(ids, steps))
  {
    RunPeersExact(ids, steps);
    var h := After(ids, steps).history;
    forall i | 0 <= i < |h| && h[i].Won? ensures h[i].peers == ids {
      assert Dropped(h[..i], h[i].node) == {};
    }
  }

  lemma NoReleaseOneWin(s: System, i: nat, j: nat)
    requires SafetyOk(s) && WinsFull(s) && NeverReleased(s.history)
    requires i < |s.history| && j < |s.history| && s.history[i].Won? && s.history[j].Won?
    ensures i == j
  {
    if i != j {
      var lo, hi := if i < j then i else j, if i < j then j else i;
      FullWinsShare(s, lo, hi);
      SharedMeansReleased(s.history, lo, hi);
    }
  }

  lemma SharedMeansReleased(h: seq<Event>, i: nat, j: nat)
    requires i < j < |h| && h[i].Won? && h[j].Won? && SharedReleased(h, i, j)
    ensures !NeverReleased(h)
  {
    var n :| n in h[i].votes * h[j].votes;
    assert VotedTwiceWithRelease(h, n, i, j);
  }

  /** While no follower has dropped a vote, at most one election has been won. */
  lemma OneWin(ids: set<string>, steps: seq<Step>, i: nat, j: nat)
    requires NOBODY !in ids
    requires var h := After(ids, steps).history;
             NeverReleased(h) && i < |h| && j < |h| && h[i].Won? && h[j].Won?
    ensures i == j
  {
    RunWinsFull(ids, steps);
    RunSafety(ids, steps);
    NoReleaseOneWin(After(ids, steps), i, j);
  }

  /** Each voter of an election not lost still points at its candidate. */
  ghost predicate VotersFaithful(s: System) {
    forall a :: 0 <= a < |s.history| && s.history[a].Voted? ==> FaithfulAt(s.nodes, s.history, a)
  }

  ghost predicate FaithfulAt(nodes: map<string, NodeState>, h: seq<Event>, a: nat)
    requires a < |h| && h[a].Voted?
  {
    !IsLost(h, h[a].election) ==> h[a].voter in nodes && nodes[h[a].voter].voteFor == h[a].candidate
  }

  /** A leader is never sent a heartbeat by another node. */
  lemma LeaderUnchallenged(ids: set<string>, steps: seq<Step>, i: nat)
    requires NOBODY !in ids
    requires var s := After(ids, steps);
             NeverReleased(s.history) && i < |s.calls| && s.calls[i].AppendCall?
    ensures var s := After(ids, steps);
            s.calls[i].to in s.nodes && !s.nodes[s.calls[i].to].status.Leader?
  {
    RunRecord(ids, steps);
    var s := After(ids, steps);
    var h, c := s.history, s.calls[i];
    assert CallOk(s.ids, c) && CallFounded(h, s.elections, c);
    assert NodeFounded(h, c.to, s.nodes[c.to]);
    if s.nodes[c.to].status.Leader? {
      var p :| 0 <= p < |h| && h[p].Won? && h[p].node == c.to;
      var q :| 0 <= q < |h| && h[q].Won? && h[q].node == c.from;
      OneWin(ids, steps, p, q);
    }
  }

  /** Where a held vote may go: nowhere, unless released, lost, or a leader obeys another. */
  ghost predicate FaithfulEffect(s: System, e: Effect)
    requires e.actor in s.nodes && e.actor in s.phases
  {
    s.nodes[e.actor].voteFor != NOBODY && !Releases(e) && !Loses(s, e) ==> e.node.voteFor == s.nodes[e.actor].voteFor
  }

  lemma StepFaithfulEffect(s: System, step: Step)
    requires RecordOk(s) && Enabled(s, step)
    requires step.Handle? && s.calls[step.call].AppendCall? ==> !s.nodes[s.calls[step.call].to].status.Leader?
    ensures Known(s, EffectOf(s, step).actor) && FaithfulEffect(s, EffectOf(s, step))
  {
    ActorFacts(s, EffectOf(s, step).actor);
  }

  /** A vote given in an election not lost is, without a release, still held. */
  lemma StillHeld(s: System, a: nat)
    requires SafetyOk(s) && NeverReleased(s.history) && a < |s.history| && s.history[a].Voted?
    requires !IsLost(s.history, s.history[a].election)
    ensures var e := s.history[a];
            e.voter in s.ids && Held(s.nodes[e.voter], s.phases[e.voter], e.election)
  {}

  lemma FaithfulVote(s: System, e: Effect, a: nat)
    requires SafetyOk(s) && SafetyEffect(s, e) && FaithfulEffect(s, e)
    requires NeverReleased(s.history) && NeverReleased(s.history + e.events)
    requires a < |s.history| && s.history[a].Voted? && FaithfulAt(s.nodes, s.history, a)
    ensures (s.history + e.events)[a] == s.history[a]
    ensures FaithfulAt(s.nodes[e.actor := e.node], s.history + e.events, a)
  {
    var h, h' := s.history, s.history + e.events;
    assert h'[a] == h[a] && (e.events != [] ==> h'[|h|] == e.events[0]);
    if IsLost(h, h[a].election) {
      GrowLost(h, h', h[a].election);
    } else {
      StillHeld(s, a);
    }
  }

  lemma FaithfulNext(s: System, e: Effect, a: nat)
    requires SafetyOk(s) && SafetyEffect(s, e) && FaithfulEffect(s, e)
    requires NeverReleased(s.history) && NeverReleased(s.history + e.events) && VotersFaithful(s)
    requires a < |s.history + e.events| && (s.history + e.events)[a].Voted?
    ensures FaithfulAt(s.nodes[e.actor := e.node], s.history + e.events, a)
  {
    var h, h' := s.history, s.history + e.events;
    if a < |h| {
      assert h'[a] == h[a];
      FaithfulVote(s, e, a);
    } else {
      assert |e.events| == 1 && a == |h| && h'[a] == e.events[0];
    }
  }

  lemma InstallFaithful(s: System, e: Effect)
    requires SafetyOk(s) && SafetyEffect(s, e) && FaithfulEffect(s, e)
    requires NeverReleased(s.history) && NeverReleased(s.history + e.events) && VotersFaithful(s)
    ensures VotersFaithful(Install(s, e))
  {
    forall a | 0 <= a < |s.history + e.events| && (s.history + e.events)[a].Voted?
      ensures FaithfulAt(s.nodes[e.actor := e.node], s.history + e.events, a)
    {
      FaithfulNext(s, e, a);
    }
  }

  lemma StepFaithful(ids: set<string>, steps: seq<Step>, step: Step)
    requires NOBODY !in ids
    requires var s := After(ids, steps);
             && SafetyOk(s) && Enabled(s, step) && NeverReleased(Apply(s, step).history) && VotersFaithful(s)
    ensures ShapeOk(Apply(After(ids, steps), step)) && VotersFaithful(Apply(After(ids, steps), step))
  {
    var s := After(ids, steps);
    StepShape(s, step);
    NeverReleasedBefore(s, step);
    if step.Handle? && s.calls[step.call].AppendCall? {
      LeaderUnchallenged(ids, steps, step.call);
    }
    StepSafetyEffect(s, step);
    StepFaithfulEffect(s, step);
    InstallFaithful(s, EffectOf(s, step));
  }

  lemma {:induction false} RunFaithful(ids: set<string>, steps: seq<Step>)
    requires NOBODY !in ids && NeverReleased(After(ids, steps).history)
    ensures ShapeOk(After(ids, steps)) && VotersFaithful(After(ids, steps))
  {
    RunShape(ids, steps);
    if steps != [] {
      var front, step := steps[..|steps| - 1], steps[|steps| - 1];
      var s := After(ids, front);
      NeverReleasedBefore(s, step);
      RunFaithful(ids, front);
      RunSafety(ids, front);
      if Enabled(s, step) {
        StepFaithful(ids, front, step);
      }
    }
  }

  /** `LEADER` is only ever reached by winning. */
  ghost predicate EverLed(ids: set<string>, steps: seq<Step>, n: string) {
    exists m :: && 0 <= m <= |steps| && n in After(ids, steps[..m]).nodes
                && After(ids, steps[..m]).nodes[n].status.Leader?
  }

  lemma LeaderWon(s: System, h': seq<Event>, n: string)
    requires RecordOk(s) && n in s.nodes && s.nodes[n].status.Leader? && s.history <= h'
    ensures HasWon(h', n)
  {}

  lemma LedImpliesWon(ids: set<string>, steps: seq<Step>, n: string)
    requires NOBODY !in ids && EverLed(ids, steps, n)
    ensures HasWon(After(ids, steps).history, n)
  {
    var m :| && 0 <= m <= |steps| && n in After(ids, steps[..m]).nodes
             && After(ids, steps[..m]).nodes[n].status.Leader?;
    RunRecord(ids, steps[..m]);
    RunGrows(ids, steps, m);
    LeaderWon(After(ids, steps[..m]), After(ids, steps).history, n);
  }

  /**
   In every run in which no follower has dropped a held vote, at most one node was
   ever LEADER, whatever calls were lost, late, reordered or repeated.
   */
  lemma AtMostOneLeaderEver(ids: set<string>, steps: seq<Step>, n: string, m: string)
    requires NOBODY !in ids && NeverReleased(After(ids, steps).history)
    requires EverLed(ids, steps, n) && EverLed(ids, steps, m)
    ensures n == m
  {
    var h := After(ids, steps).history;
    LedImpliesWon(ids, steps, n);
    LedImpliesWon(ids, steps, m);
    var i :| 0 <= i < |h| && h[i].Won? && h[i].node == n;
    var j :| 0 <= j < |h| && h[j].Won? && h[j].node == m;
    OneWin(ids, steps, i, j);
  }

  /**
   The voters counted for an elected node keep pointing at it through every
   extension of the run in which still no follower drops a held vote; they are a
   majority of the cluster.
   */
  lemma SupportersStay(ids: set<string>, steps: seq<Step>, more: seq<Step>, i: nat)
    requires NOBODY !in ids && NeverReleased(After(ids, steps + more).history)
    requires i < |After(ids, steps).history| && After(ids, steps).history[i].Won?
    ensures var w := After(ids, steps).history[i];
            var t := After(ids, steps + more);
            && w.votes <= ids && 2 * |w.votes| > |ids|
            && forall v :: v in w.votes ==> v in t.nodes && t.nodes[v].voteFor == w.node
  {
    assert (steps + more)[..|steps|] == steps;
    RunGrows(ids, steps + more, |steps|);
    var t := After(ids, steps + more);
    assert t.history[i] == After(ids, steps).history[i];
    RunFaithful(ids, steps + more);
    RunRecord(ids, steps + more);
    RunWinsFull(ids, steps + more);
    WinnersVoters(t, i);
  }

  lemma WinnersVoters(t: System, i: nat)
    requires RecordOk(t) && WinsFull(t) && VotersFaithful(t) && i < |t.history| && t.history[i].Won?
    ensures var w := t.history[i];
            && w.votes <= t.ids && 2 * |w.votes| > |t.ids|
            && forall v :: v in w.votes ==> v in t.nodes && t.nodes[v].voteFor == w.node
  {
    var h := t.history;
    assert EventOk(t.ids, h[..i], t.elections, h[i]);
    forall v | v in h[i].votes ensures v in t.nodes && t.nodes[v].voteFor == h[i].node {
      WonNotLost(h, i);
      var a :| 0 <= a < i && h[a] == Voted(v, h[i].node, h[i].election);
      assert FaithfulAt(t.nodes, h, a);
    }
  }

  /**
   Whenever a node's mutex is free: a LEADER has voted for itself, a CANDIDATE has
   voted for nobody, and a vote held names a node that has begun a candidacy.
   The stub table matches the peers, whatever votes were released.
   */
  lemma FreeNodeFacts(ids: set<string>, steps: seq<Step>, n: string)
    requires NOBODY !in ids && n in ids
    ensures var s := After(ids, steps);
            && Known(s, n) && ChannelsMatchPeers(s.nodes[n]) && s.nodes[n].selfId == n
            && (s.nodes[n].voteFor != NOBODY ==> HasStood(s.history, s.nodes[n].voteFor))
            && (s.phases[n].Free? && s.nodes[n].status.Leader? ==> s.nodes[n].voteFor == n)
            && (s.phases[n].Free? && s.nodes[n].status.Candidate? ==> s.nodes[n].voteFor == NOBODY)
  {
    RunRecord(ids, steps);
    var s := After(ids, steps);
    assert NodeOk(s.ids, n, s.nodes[n], s.phases[n]);
    assert NodeFounded(s.history, n, s.nodes[n]);
  }
}
