/**
 A cluster of Raft nodes as a state machine.

 A node's handlers run atomically while its mutex is free.  The daemon keeps the
 mutex for a whole candidacy or heartbeat round, so while a node is in the phase
 `Electing` or `Beating` its own handlers wait.  A call that was sent may be
 handled at any later time, any number of times or never; a reply may reach its
 caller as long as the caller still waits for that very call.  Loss, delay,
 reordering and duplication are all covered.

 Any sequence of steps is a run: a step that is not enabled changes nothing.
 */
module RaftSystem {
  import opened Basics
  import opened RaftNode

  datatype Call =
    | VoteCall(from: string, to: string, term: Term, election: nat)
    | AppendCall(from: string, to: string, term: Term)

  /** The answer to call number `call`; `ok` is `vote()` or `success()`. */
  datatype Reply = Reply(call: nat, term: Term, ok: bool)

  /** What the daemon of a node is doing with the mutex. */
  datatype Phase =
    | Free
    | Electing(election: nat, asked: set<string>, votes: set<string>, waiting: Option<nat>)
    | Beating(asked: set<string>, waiting: Option<nat>)

  /** What a run records.  Elections are numbered in the order in which they begin. */
  datatype Event =
    | Voted(voter: string, candidate: string, election: nat)
    | Released(node: string, target: string)
    | Won(node: string, election: nat, votes: set<string>, peers: set<string>)
    | Lost(node: string, election: nat, votes: set<string>, peers: set<string>)

  datatype System = System(
    ids: set<string>,
    nodes: map<string, NodeState>,
    phases: map<string, Phase>,
    calls: seq<Call>,
    replies: set<Reply>,
    elections: nat,
    history: seq<Event>)

  datatype Step =
    | Timeout(n: string)
    | Stand(n: string)
    | AskVote(n: string, peer: string)
    | Handle(call: nat)
    | TakeReply(n: string, reply: Reply)
    | GiveUp(n: string)
    | CountVotes(n: string)
    | BeginRound(n: string)
    | SendHeartbeat(n: string, peer: string)
    | EndRound(n: string)

  function Init(ids: set<string>): System {
    System(ids, map n | n in ids :: Initial(n, ids), map n | n in ids :: Free, [], {}, 0, [])
  }

  predicate Known(s: System, n: string) {
    n in s.nodes && n in s.phases
  }

  predicate Enabled(s: System, step: Step) {
    match step
    case Timeout(n) => Known(s, n) && s.phases[n].Free? && s.nodes[n].status.Follower?
    case Stand(n) => Known(s, n) && s.phases[n].Free? && s.nodes[n].status.Candidate?
    case AskVote(n, p) =>
      && Known(s, n) && s.phases[n].Electing? && s.phases[n].waiting.None?
      && p in s.nodes[n].peers && p != n && p !in s.phases[n].asked
    case Handle(i) =>
      && i < |s.calls| && Known(s, s.calls[i].to) && s.phases[s.calls[i].to].Free?
    case TakeReply(n, r) =>
      && Known(s, n) && !s.phases[n].Free? && s.phases[n].waiting == Some(r.call)
      && r in s.replies && r.call < |s.calls|
    case GiveUp(n) => Known(s, n) && !s.phases[n].Free? && s.phases[n].waiting.Some?
    case CountVotes(n) =>
      && Known(s, n) && s.phases[n].Electing? && s.phases[n].waiting.None?
      && s.nodes[n].peers - {n} <= s.phases[n].asked
    case BeginRound(n) => Known(s, n) && s.phases[n].Free? && s.nodes[n].status.Leader?
    case SendHeartbeat(n, p) =>
      && Known(s, n) && s.phases[n].Beating? && s.phases[n].waiting.None?
      && p in s.nodes[n].peers && p != n && p !in s.phases[n].asked
    case EndRound(n) =>
      && Known(s, n) && s.phases[n].Beating? && s.phases[n].waiting.None?
      && s.nodes[n].peers - {n} <= s.phases[n].asked
  }

  /**
   What a step does: new fields and phase for one node, and what it adds to the
   calls, the replies, the number of elections and the history.
   */
  datatype Effect = Effect(
    actor: string,
    node: NodeState,
    phase: Phase,
    calls: seq<Call>,
    replies: set<Reply>,
    begun: nat,
    events: seq<Event>)

  function Install(s: System, e: Effect): System {
    s.(nodes := s.nodes[e.actor := e.node],
       phases := s.phases[e.actor := e.phase],
       calls := s.calls + e.calls,
       replies := s.replies + e.replies,
       elections := s.elections + e.begun,
       history := s.history + e.events)
  }

  function TimeoutEffect(s: System, n: string): Effect
    requires Known(s, n)
  {
    var x := s.nodes[n];
    Effect(n, AfterTimeout(x), s.phases[n], [], {}, 0, if x.voteFor == NOBODY then [] else [Released(n, x.voteFor)])
  }

  function StandEffect(s: System, n: string): Effect
    requires Known(s, n)
  {
    Effect(n, AfterStanding(s.nodes[n]), Electing(s.elections, {}, {n}, None), [], {}, 1, [Voted(n, n, s.elections)])
  }

  /** One call to a peer, for which the daemon then waits. */
  function SendEffect(s: System, n: string, p: string, c: Call): Effect
    requires Known(s, n) && !s.phases[n].Free?
  {
    var ph := s.phases[n];
    Effect(n, s.nodes[n], ph.(asked := ph.asked + {p}, waiting := Some(|s.calls|)), [c], {}, 0, [])
  }

  function HandleEffect(s: System, i: nat): Effect
    requires i < |s.calls| && Known(s, s.calls[i].to)
  {
    var c := s.calls[i];
    var x := s.nodes[c.to];
    match c
    case VoteCall(from, to, _, k) =>
      Effect(to, AfterVote(x, from), s.phases[to], [], {Reply(i, x.term, Grants(x))}, 0,
             if Grants(x) then [Voted(to, from, k)] else [])
    case AppendCall(from, to, t) =>
      Effect(to, AfterAppend(x, from, t), s.phases[to], [], {Reply(i, x.term, Accepts(x, t))}, 0, [])
  }

  function TakeReplyEffect(s: System, n: string, r: Reply): Effect
    requires Known(s, n) && !s.phases[n].Free? && r.call < |s.calls|
  {
    var ph := s.phases[n];
    if ph.Electing? then
      var votes := if r.ok then ph.votes + {s.calls[r.call].to} else ph.votes;
      Effect(n, s.nodes[n], ph.(votes := votes, waiting := None), [], {}, 0, [])
    else if r.ok then
      Effect(n, s.nodes[n], Beating(ph.asked, None), [], {}, 0, [])
    else
      Effect(n, AfterRejection(s.nodes[n], r.term), Free, [], {}, 0, [])
  }

  function CountEffect(s: System, n: string): Effect
    requires Known(s, n) && s.phases[n].Electing?
  {
    var ph, x := s.phases[n], s.nodes[n];
    Effect(n, AfterCounting(x, |ph.votes|), Free, [], {}, 0,
           [if Elected(|ph.votes|, x.peers) then Won(n, ph.election, ph.votes, x.peers)
            else Lost(n, ph.election, ph.votes, x.peers)])
  }

  function PhaseEffect(s: System, n: string, ph: Phase): Effect
    requires Known(s, n)
  {
    Effect(n, s.nodes[n], ph, [], {}, 0, [])
  }

  function EffectOf(s: System, step: Step): Effect
    requires Enabled(s, step)
  {
    match step
    case Timeout(n) => TimeoutEffect(s, n)
    case Stand(n) => StandEffect(s, n)
    case AskVote(n, p) => SendEffect(s, n, p, VoteCall(n, p, s.nodes[n].term, s.phases[n].election))
    case Handle(i) => HandleEffect(s, i)
    case TakeReply(n, r) => TakeReplyEffect(s, n, r)
    case GiveUp(n) => PhaseEffect(s, n, s.phases[n].(waiting := None))
    case CountVotes(n) => CountEffect(s, n)
    case BeginRound(n) => PhaseEffect(s, n, Beating({}, None))
    case SendHeartbeat(n, p) => SendEffect(s, n, p, AppendCall(n, p, s.nodes[n].term))
    case EndRound(n) => PhaseEffect(s, n, Free)
  }

  function Apply(s: System, step: Step): System {
    if Enabled(s, step) then Install(s, EffectOf(s, step)) else s
  }

  /** The state a cluster of `ids` reaches by taking `steps` in order. */
  function After(ids: set<string>, steps: seq<Step>): System {
    if steps == [] then Init(ids)
    else Apply(After(ids, steps[..|steps| - 1]), steps[|steps| - 1])
  }

  lemma StepGrows(s: System, step: Step)
    ensures s.history <= Apply(s, step).history && s.elections <= Apply(s, step).elections
  {}

  /** What a run has recorded and begun at any moment stays so. */
  lemma {:induction false} RunGrows(ids: set<string>, steps: seq<Step>, m: nat)
    requires m <= |steps|
    ensures After(ids, steps[..m]).history <= After(ids, steps).history
    ensures After(ids, steps[..m]).elections <= After(ids, steps).elections
  {
    if m == |steps| {
      assert steps[..m] == steps;
    } else {
      var front := steps[..|steps| - 1];
      assert front[..m] == steps[..m];
      RunGrows(ids, front, m);
      StepGrows(After(ids, front), steps[|steps| - 1]);
    }
  }
}
