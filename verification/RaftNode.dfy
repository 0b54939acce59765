/**
 One Raft node: the fields guarded by its mutex, the two RPC handlers and the
 three branches of the daemon loop.

 Every operation appears twice.  The functions on `NodeState` say what the
 operation does to the fields; the class `Raft` performs it in place, in the
 order the program does, and each method is proved to realise its function.
 The protocol in `RaftSystem` is built from the functions.
 */
module RaftNode {
  import opened Basics

  /** `uint64_t`. */
  type Term = t: int | 0 <= t < TWO64 witness 0

  /** `term_(-1)`: the constructor stores the largest unsigned value. */
  const INITIAL_TERM: Term := TWO64 - 1

  /** The empty string is the program's "no vote". */
  const NOBODY: string := ""

  datatype Status = Follower | Candidate | Leader

  /** A `unique_ptr` to an RPC stub. */
  datatype Stub = Null | Stub(address: string)

  datatype NodeState = NodeState(
    selfId: string,
    status: Status,
    voteFor: string,
    term: Term,
    peers: set<string>,
    channels: map<string, Stub>)

  /** One live stub for each peer other than the node itself. */
  function OpenChannels(peers: set<string>, selfId: string): map<string, Stub> {
    map p | p in peers && p != selfId :: Stub(p)
  }

  function Initial(selfId: string, peers: set<string>): NodeState {
    NodeState(selfId, Follower, NOBODY, INITIAL_TERM, peers, OpenChannels(peers, selfId))
  }

  // ----- Vote

  predicate Grants(s: NodeState) {
    s.status.Follower? && s.voteFor == NOBODY
  }

  function AfterVote(s: NodeState, candidate: string): NodeState {
    if Grants(s) then s.(voteFor := candidate) else s
  }

  // ----- AppendMsg

  /** `int term = request.term()`: keep the low 32 bits, read as two's complement. */
  function NarrowToInt(t: Term): int {
    var low := t % TWO32;
    if low < TWO32 / 2 then low else low - TWO32
  }

  /** An `int` compared with, or stored in, a `uint64_t`. */
  function WidenToTerm(i: int): Term
    requires -(TWO32 / 2) <= i < TWO32 / 2
  {
    if i < 0 then i + TWO64 else i
  }

  /** The term `AppendMsg` works with when a request carries `t`. */
  function ReadTerm(t: Term): Term {
    WidenToTerm(NarrowToInt(t))
  }

  predicate Accepts(s: NodeState, term: Term) {
    s.term <= ReadTerm(term)
  }

  function AfterAppend(s: NodeState, leader: string, term: Term): NodeState {
    if !Accepts(s, term) then s
    else if s.status.Follower? then s.(term := ReadTerm(term))
    else s.(term := ReadTerm(term), status := Follower, voteFor := leader)
  }

  // ----- the daemon

  /** A follower out of patience stands for election, or drops the node it voted for. */
  function AfterTimeout(s: NodeState): NodeState {
    if s.voteFor == NOBODY then s.(status := Candidate)
    else s.(peers := s.peers - {s.voteFor}, channels := s.channels - {s.voteFor}, voteFor := NOBODY)
  }

  function NextTerm(t: Term): Term {
    if t == TWO64 - 1 then 0 else t + 1
  }

  function AfterStanding(s: NodeState): NodeState {
    s.(term := NextTerm(s.term), voteFor := s.selfId)
  }

  predicate Elected(votes: nat, peers: set<string>) {
    votes >= |peers| / 2 + 1
  }

  lemma ElectedMeans(votes: nat, peers: set<string>)
    ensures Elected(votes, peers) <==> 2 * votes > |peers|
  {}

  lemma NextTermWraps(t: Term)
    ensures NextTerm(t) == (t + 1) % TWO64
  {}

  function AfterCounting(s: NodeState, votes: nat): NodeState {
    if Elected(votes, s.peers) then s.(status := Leader)
    else s.(status := Follower, voteFor := NOBODY)
  }

  function AfterRejection(s: NodeState, term: Term): NodeState {
    s.(status := Follower, term := term)
  }

  // ----- the narrowing in AppendMsg

  /** What is read agrees with what was sent in the low 32 bits, and is the one such value an `int` widens to. */
  lemma ReadTermMeaning(t: Term, u: Term)
    ensures u == ReadTerm(t) <==> u % TWO32 == t % TWO32 && (u < TWO32 / 2 || TWO64 - TWO32 / 2 <= u)
  {}

  /** Exactly which terms survive the trip through `int`. */
  lemma ReadTermExact(t: Term)
    ensures ReadTerm(t) == t <==> t < TWO32 / 2 || TWO64 - TWO32 / 2 <= t
  {}

  // ----- the stub table

  /** The loops over `peers_` find a live stub for every peer but the node itself. */
  ghost predicate ChannelsMatchPeers(s: NodeState) {
    && s.channels.Keys == s.peers - {s.selfId}
    && forall p :: p in s.channels ==> s.channels[p] == Stub(p)
  }

  lemma StubTableOpened(selfId: string, peers: set<string>)
    ensures ChannelsMatchPeers(Initial(selfId, peers))
  {}

  lemma StubTableKept(s: NodeState, who: string, term: Term, votes: nat)
    requires ChannelsMatchPeers(s)
    ensures ChannelsMatchPeers(AfterVote(s, who))
    ensures ChannelsMatchPeers(AfterAppend(s, who, term))
    ensures ChannelsMatchPeers(AfterTimeout(s))
    ensures ChannelsMatchPeers(AfterStanding(s))
    ensures ChannelsMatchPeers(AfterCounting(s, votes))
    ensures ChannelsMatchPeers(AfterRejection(s, term))
  {}

  datatype VoteAnswer = VoteAnswer(term: Term, vote: bool)
  datatype AppendAnswer = AppendAnswer(term: Term, success: bool)

  /** The peers whose answer reached the candidate in time and granted the vote. */
  function Granters(asked: set<string>, answers: map<string, VoteAnswer>): set<string> {
    set p | p in asked && p in answers && answers[p].vote
  }

  lemma GrantersMore(asked: set<string>, p: string, answers: map<string, VoteAnswer>)
    requires p !in asked
    ensures |Granters(asked + {p}, answers)|
         == |Granters(asked, answers)| + if p in answers && answers[p].vote then 1 else 0
  {
    assert Granters(asked + {p}, answers)
        == Granters(asked, answers) + if p in answers && answers[p].vote then {p} else {};
  }

  /** A whole candidacy: the vote of the node itself and the grants that arrived. */
  function AfterElection(s: NodeState, answers: map<string, VoteAnswer>): NodeState {
    AfterCounting(AfterStanding(s), |{s.selfId} + Granters(s.peers - {s.selfId}, answers)|)
  }

  /** A heartbeat round changes nothing, or obeys one of the rejections that arrived. */
  ghost predicate RoundOutcome(s: NodeState, answers: map<string, AppendAnswer>, t: NodeState) {
    if forall p :: p in answers && p in s.peers - {s.selfId} ==> answers[p].success then t == s
    else exists p :: && p in answers && p in s.peers - {s.selfId} && !answers[p].success
                     && t == s.(status := Follower, term := answers[p].term)
  }

  class Raft {
    const selfId: string
    var status: Status
    var voteFor: string
    var term: Term
    var peers: set<string>
    var channels: map<string, Stub>

    ghost function State(): NodeState
      reads this
    {
      NodeState(selfId, status, voteFor, term, peers, channels)
    }

    ghost predicate Valid()
      reads this
    {
      ChannelsMatchPeers(State())
    }

    constructor (addresses: seq<string>, peerId: nat)
      requires peerId < |addresses|
      ensures Valid()
      ensures State() == Initial(addresses[peerId], set a | a in addresses)
    {
      selfId := addresses[peerId];
      status := Follower;
      voteFor := NOBODY;
      term := INITIAL_TERM;
      peers := set a | a in addresses;
      new;
      channels := map[];
      var rest := peers;
      while rest != {}
        invariant rest <= peers
        invariant peers == set a | a in addresses
        invariant selfId == addresses[peerId] && status == Follower && voteFor == NOBODY && term == INITIAL_TERM
        invariant channels == OpenChannels(peers - rest, selfId)
        decreases |rest|
      {
        var s :| s in rest;
        rest := rest - {s};
        if s != selfId {
          channels := channels[s := Stub(s)];
        }
      }
      assert peers - {} == peers;
    }

    method Vote(candidateId: string) returns (reply: VoteAnswer)
      modifies this
      ensures State() == AfterVote(old(State()), candidateId)
      ensures reply == VoteAnswer(old(term), old(status) == Follower && old(voteFor) == NOBODY)
      ensures State() == if reply.vote then old(State()).(voteFor := candidateId) else old(State())
    {
      if status == Leader || status == Candidate {
        reply := VoteAnswer(term, false);
      } else if voteFor != NOBODY {
        reply := VoteAnswer(term, false);
      } else {
        reply := VoteAnswer(term, true);
        voteFor := candidateId;
      }
    }

    method AppendMsg(requestTerm: Term, leaderId: string) returns (reply: AppendAnswer)
      modifies this
      ensures State() == AfterAppend(old(State()), leaderId, requestTerm)
      ensures reply == AppendAnswer(old(term), old(term) <= ReadTerm(requestTerm))
      ensures State() == if !reply.success then old(State())
                         else old(State()).(term := ReadTerm(requestTerm), status := Follower,
                                            voteFor := if old(status) == Follower then old(voteFor) else leaderId)
    {
      reply := AppendAnswer(term, false);
      var read := WidenToTerm(NarrowToInt(requestTerm));
      if term <= read {
        term := read;
        if status == Candidate || status == Leader {
          status := Follower;
          voteFor := leaderId;
        }
        reply := reply.(success := true);
      }
    }

    /** `channels[key]`, which inserts a null pointer when the key is missing. */
    method Slot(key: string)
      modifies this`channels
      ensures channels == if key in old(channels) then old(channels) else old(channels)[key := Null]
    {
      if key !in channels {
        channels := channels[key := Null];
      }
    }

    /** The follower branch once patience has run out. */
    method Timeout()
      requires Valid()
      requires status == Follower
      modifies this
      ensures Valid()
      ensures State() == AfterTimeout(old(State()))
      ensures term == old(term)
      ensures old(voteFor) == NOBODY ==> status == Candidate && voteFor == NOBODY && peers == old(peers)
      ensures old(voteFor) != NOBODY ==> status == Follower && voteFor == NOBODY && peers == old(peers) - {old(voteFor)}
    {
      StubTableKept(State(), NOBODY, 0, 0);
      if voteFor == NOBODY {
        status := Candidate;
      } else {
        Slot(voteFor);
        channels := channels[voteFor := Null];
        channels := channels - {voteFor};
        assert channels == old(channels) - {voteFor};
        peers := peers - {voteFor};
        voteFor := NOBODY;
      }
    }

    /** A whole candidacy; `answers` holds the replies that arrive before their deadline. */
    method StandForElection(answers: map<string, VoteAnswer>) returns (voteCount: nat)
      requires Valid()
      requires status == Candidate
      modifies this
      ensures Valid()
      ensures voteCount == |{selfId} + Granters(old(peers) - {selfId}, answers)|
      ensures State() == AfterElection(old(State()), answers)
      ensures term == (old(term) + 1) % TWO64 && peers == old(peers) && channels == old(channels)
      ensures if 2 * voteCount > |old(peers)| then status == Leader && voteFor == selfId
              else status == Follower && voteFor == NOBODY
    {
      Stand();
      voteCount := CountVotes(answers);
      Conclude(voteCount);
    }

    /** The beginning of a candidacy: the next term, and the node's own vote. */
    method Stand()
      requires Valid()
      modifies this`term, this`voteFor
      ensures Valid()
      ensures State() == AfterStanding(old(State()))
      ensures term == (old(term) + 1) % TWO64 && voteFor == selfId
    {
      StubTableKept(State(), NOBODY, 0, 0);
      NextTermWraps(term);
      term := NextTerm(term);
      voteFor := selfId;
    }

    /** The majority test at the end of a candidacy. */
    method Conclude(voteCount: nat)
      requires Valid() && voteFor == selfId
      modifies this`status, this`voteFor
      ensures Valid()
      ensures State() == AfterCounting(old(State()), voteCount)
      ensures if 2 * voteCount > |peers| then status == Leader && voteFor == selfId
              else status == Follower && voteFor == NOBODY
    {
      StubTableKept(State(), NOBODY, 0, voteCount);
      ElectedMeans(voteCount, peers);
      if voteCount >= |peers| / 2 + 1 {
        status := Leader;
      } else {
        status := Follower;
        voteFor := NOBODY;
      }
    }

    /** The loop that asks each peer in turn; the order is that of the hash set. */
    method CountVotes(answers: map<string, VoteAnswer>) returns (voteCount: nat)
      requires Valid()
      ensures voteCount == |{selfId} + Granters(peers - {selfId}, answers)|
    {
      voteCount := 1;
      var rest := peers;
      ghost var asked: set<string> := {};
      while rest != {}
        invariant rest <= peers && asked !! rest && selfId !in asked
        invariant forall p :: p in peers && p != selfId ==> p in asked || p in rest
        invariant asked <= peers && voteCount == 1 + |Granters(asked, answers)|
        decreases |rest|
      {
        var peer :| peer in rest;
        rest := rest - {peer};
        if peer != selfId {
          assert channels[peer] == Stub(peer);
          GrantersMore(asked, peer, answers);
          asked := asked + {peer};
          if peer in answers && answers[peer].vote {
            voteCount := voteCount + 1;
          }
        }
      }
      assert asked == peers - {selfId};
      assert selfId !in Granters(asked, answers);
    }

    /** One heartbeat round; it stops at the first rejection it meets. */
    method HeartbeatRound(answers: map<string, AppendAnswer>)
      requires Valid()
      requires status == Leader
      modifies this
      ensures Valid()
      ensures RoundOutcome(old(State()), answers, State())
    {
      var rest := peers;
      while rest != {}
        invariant rest <= peers
        invariant Valid() && State() == old(State())
        invariant forall p :: p in answers && p in peers - rest - {selfId} ==> answers[p].success
        decreases |rest|
      {
        var peer :| peer in rest;
        rest := rest - {peer};
        if peer != selfId {
          assert peer in channels && channels[peer] == Stub(peer);
          if peer in answers && !answers[peer].success {
            status := Follower;
            term := answers[peer].term;
            assert State() == AfterRejection(old(State()), answers[peer].term);
            return;
          }
        }
      }
    }
  }
}
