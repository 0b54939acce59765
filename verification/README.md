# RaftCPP, modelled and verified in Dafny

RaftCPP elects a leader among a fixed set of nodes (`src/raft.h`, `src/raft.cpp`); it
vendors glog, googletest and googlemock. This project models the election protocol and
the algorithmic cores of the vendored libraries, and proves what each of them guarantees.
`dafny verify dfyconfig.toml` checks everything.

## The election protocol

`RaftNode.dfy` holds one node. Functions on `NodeState` say what each operation does to the
fields under the mutex; the class `Raft` performs the operations in place and is proved
against them. `RaftSystem.dfy` makes a cluster of them: a state machine whose steps are the
daemon's branches, the handling of a call, and the arrival or loss of a reply. A candidacy or
a heartbeat round holds the node's mutex, so it is a phase of several steps during which the
node's own handlers wait. A call sent may be handled at any later time, any number of times,
or never; a reply counts only while its caller waits for that very call. Every sequence of
steps is a run, and the theorems are about every run.

`Vote` compares no terms and stores none, so what the code guarantees differs from section
5.2 of Ongaro and Ousterhout's "In Search of an Understandable Consensus Algorithm":

- Elections are exclusive through votes held. Two elections won by nodes that still count the
  whole cluster as peers share a voter, and every shared voter dropped a held vote, by timing
  out on it, between its two votes (`TwoWinsNeedRelease`). Such a pair of elections is possible
  if and only if the cluster has at least three nodes, and then both winners can lead in the
  same term (`FullWinsExact`).
- Until a follower drops a held vote, at most one node was ever LEADER, and the majority that
  elected it keeps pointing at it (`AtMostOneLeaderEver`, `SupportersStay`).
- The hypothesis is needed: one leader per term holds in every run of a cluster if and only if
  the cluster has at most one node (`OneLeaderPerTermExact`). With two nodes or more, one is
  elected by all, the others drop it, and one of them is elected by the rest in the same term.
- `term_` starts at 2^64-1 and `AppendMsg` reads terms through an `int`. Within 2^31
  candidacies nothing is lost by that (`RunTerms`), and that number is exact wherever there is
  anybody to send a heartbeat to: one candidacy more suffices to lose a term (`LimitExact`).
  Which terms survive in general is `ReadTermExact`. A node that has kept its first term rejects every heartbeat
  (`FreshNodeRejects`).

`RaftShape` and `RaftRecord` hold the invariants that carry these results: each step is an
effect on one node, the invariants are shown to survive any well-behaved effect, and each
step's effect is shown to be well behaved. `RaftPeers` says exactly whom a node still counts
among its peers. `RaftLoops` shows that the daemon's loops, taken apart into steps that
interleave with everybody else's, end as the methods of `Raft` that run them in one piece.
`RaftFields` takes the runs field by field: which steps change a node's term, status, vote and
peers, if and only if what, and to what value. `RaftRuns` puts runs together for the results that say something can happen.

## The vendored cores

- `BipartiteMatching`, `MaxBipartiteMatch`, `UnorderedElements`: googlemock's augmenting-path
  search on its two arrays. A ghost vertex cover of the size of the matching shows that one
  pass over the left nodes yields a maximum matching; `UnorderedElementsAre` follows.
- `Expectations`: the prerequisite graph, retiring, the pruned search for unsatisfied
  prerequisites, and an invariant kept by every EXPECT_CALL and every mock call. Over whole
  programs: what is retired, and which calls are handled, by the numbers of calls handled before.
- `LineReader`: lines through a refilled buffer, against a definition without chunks.
- `HexNumbers`: `itoa_r` and `GetHex` against the meaning of digit strings.
- `GlobMatch`: `SafeFNMatch_` against the meaning of a glob.
- `StringLiteral`: the string-literal printer against the C++ rules for reading literals.
- `TruncateLog`: the overlapping block copy, with the exact contents of the file after any short
  reads, short writes and errors.

Where the code falls short of the natural property, the exact condition is proved:

- `SafeFNMatch_` decides every star-free text correctly if and only if the pattern does not end
  in `**` (`PatternDecided`), and every text correctly if and only if the pattern has no star
  (`PatternDecidedEverywhere`). It decides a text correctly against all such patterns if and only if
  the text has no star (`TextDecided`). On star-free texts it decides the glob in which a
  final `**` asks for one more character (`FnMatchExact`), and on all texts the splits that use
  stars in the one way `CodeSplitBy` describes (`CodeSplitsExact`).
- A printed string reads back as itself if and only if no NUL is followed by an octal digit
  (`RoundTripExact`); what it reads back as otherwise is `Meaning` (`PrintedReads`).
- A positive call count implies that all prerequisites are satisfied if and only if the expectation
  allows at least one call (`CalledSettledExact`). An excess call of an expectation that allows
  none is counted without retiring what came before it, and for every such expectation a program
  breaks the implication (`ExcessCallsUnsettle`). The pruned search stops only at satisfied
  expectations, so its verdict is not affected.

## Model

| member | source | states |
|---|---|---|
| `RaftNode.Raft.constructor` | src/raft.cpp:9-22 | a new node follows nobody in term 2^64-1 with all addresses as peers and a live stub for each but itself |
| `RaftNode.Raft.Vote` | src/raft.h:89-106 | grants exactly when following with no vote held; reply carries the term before the call; only the vote changes |
| `RaftNode.Raft.AppendMsg` | src/raft.h:108-141 | accepts exactly when its term is at most the narrowed request term; then follows in that term, for the sender unless it followed already; else nothing changes |
| `RaftNode.Raft.Timeout` | src/raft.h:170-191 | keeps the term; stands if no vote is held, else stays a follower and erases the node voted for from vote, peers and stubs, even if absent there or itself |
| `RaftNode.Raft.StandForElection` | src/raft.h:192-244 | a whole candidacy: the next term modulo 2^64; LEADER with its own vote if twice the count exceeds the remaining peers, else FOLLOWER without a vote; peers stay |
| `RaftNode.Raft.CountVotes` | src/raft.h:198-219 | the count is one plus the peers whose grant arrived, for any order of the hash set; every stub used is live |
| `RaftNode.Raft.HeartbeatRound` | src/raft.h:245-269 | unchanged if no reply rejects; otherwise FOLLOWER in the term of some rejecting reply, all else unchanged |
| `RaftNode.ReadTermExact` | src/raft.h:119-123 | a term survives the trip through `int` if and only if it is below 2^31 or at least 2^64-2^31 |
| `RaftNode.ReadTermMeaning` | src/raft.h:119-123 | the term read is the one value that agrees with the term sent in the low 32 bits and is the widening of an `int` |
| `RaftNode.StubTableKept` | src/raft.h:154-211 | every operation keeps the stub keys equal to the peers minus the node itself, each stub live |
| `RaftFields.FieldsExact` | src/raft.h:89-269 | in every run: a term changes if and only if its node begins a candidacy, accepts a heartbeat of another term or steps down on a reply of another term, and to what; likewise status, vote, peers and stubs; what calls and replies are added |
| `RaftLoops.ElectionInOnePiece` | src/raft.h:192-244 | in every run, while the mutex is held from standing to counting, every peer is asked and the steps leave the node as `StandForElection` does for the replies taken, whatever the other nodes do |
| `RaftLoops.RoundInOnePiece` | src/raft.h:245-269 | in every run the steps of a heartbeat round, up to its end or the first rejection, leave the node as `HeartbeatRound` allows for the replies taken; without a rejection every peer was sent a heartbeat |
| `RaftShape.RunShape` | src/raft.h:167-271 | every reachable state is well formed: status, vote and phase agree, and a waiting daemon waits for a call of its own |
| `RaftRecord.RunRecord` | src/raft.h:192-244 | in every run each counted vote was given in that election before it ended, a win has more than half of the peers and a loss at most half, elections end once, votes name nodes that stood and leaders have won |
| `RaftSafety.RunSafety` | src/raft.h:94-103 | in every run two votes of one node, the first in an election not lost, have a release between them |
| `RaftSafety.TwoWinsNeedRelease` | src/raft.h:89-244 | two wins with full peers share a voter, and each shared voter dropped a held vote between its two votes, each given before the win it counted for |
| `RaftSafety.OneWin` | src/raft.h:89-244 | without a dropped vote at most one election has been won |
| `RaftSafety.LeaderUnchallenged` | src/raft.h:125-128 | without a dropped vote no heartbeat is addressed to a leader |
| `RaftSafety.AtMostOneLeaderEver` | src/raft.h:89-269 | without a dropped vote at most one node was ever LEADER, under loss, delay, reordering and duplication |
| `RaftSafety.SupportersStay` | src/raft.h:94-103 | the winner's voters are a majority and keep pointing at it through every extension of the run without a dropped vote |
| `RaftSafety.FreeNodeFacts` | src/raft.h:94-259 | with the mutex free LEADER voted for itself, CANDIDATE for nobody; a held vote names a node that stood; stubs match peers |
| `RaftPeers.RunPeersExact` | src/raft.h:184-187 | after every run a node's peers are the cluster minus exactly the nodes it dropped, and every election was counted against the peers so left to its candidate |
| `RaftTerms.RunTerms` | src/raft.h:119-123 | within 2^31 candidacies every term is 2^64-1 or below their number, every term sent is below it, and narrowing loses nothing |
| `RaftTerms.TermsRise` | src/raft.h:194-259 | within that limit a term falls exactly where a candidacy wraps 2^64-1 to 0; a leader stepping down adopts a strictly greater term and keeps its own vote |
| `RaftTerms.HeartbeatJudged` | src/raft.h:112-136 | within that limit a heartbeat is judged by the terms as sent, and what acceptance and rejection leave behind |
| `RaftTerms.FreshNodeRejects` | src/raft.h:112-136 | a node still in term 2^64-1 rejects every heartbeat, and the reply turns a waiting leader into a follower in that term |
| `RaftLimit.LoseMany` | src/raft.h:192-244 | a node can lose any number of elections in a row, each raising its term by one and changing nobody else |
| `RaftLimit.HeartbeatOfTerm` | src/raft.h:192-259 | in a cluster of two or more, for every term a run with one candidacy more sends a heartbeat of that term |
| `RaftLimit.LimitExact` | src/raft.h:119-123 | all runs of at most K candidacies have every heartbeat read with the term it carries if and only if K is at most 2^31 or the cluster has at most one node |
| `RaftRuns.Campaign` | src/raft.h:192-244 | for every set of willing peers some run has the node stand and get exactly their votes, win or lose accordingly, and changes nothing else |
| `RaftRuns.DropAll` | src/raft.h:183-189 | followers holding votes can all time out, each dropping the node it voted for |
| `RaftTwoLeaders.OneLeaderPerTermExact` | src/raft.h:89-244 | every run has at most one leader per term if and only if the cluster has at most one node |
| `RaftTwoLeaders.TakeOver` | src/raft.h:170-244 | for any two nodes and any set of others some run has the set vote for the first, drop it, and vote for the second |
| `RaftTwoLeaders.FullWinsExact` | src/raft.h:89-244 | two elections can be won by nodes that count the whole cluster if and only if it has three nodes or more, and then both can lead it in one term |
| `BipartiteMatching.WeakDuality` | lib/googlemock/src/gmock-matchers.cc:136-170 | a cover is at least as large as any matching it covers, and a cover of equal size is one end of each pair |
| `BipartiteMatching.TightCover` | lib/googlemock/src/gmock-matchers.cc:136-170 | a cover as small as the matching meets each pair in exactly one end |
| `BipartiteMatching.CoverProvesMaximum` | lib/googlemock/src/gmock-matchers.cc:206-221 | a cover of the whole graph of the matching's size makes the matching maximum |
| `BipartiteMatching.SwapSize` | lib/googlemock/src/gmock-matchers.cc:210-221 | moving pairs of a tight cover to their right ends keeps its size |
| `MaxBipartiteMatch.LinkFree` | lib/googlemock/src/gmock-matchers.cc:270-281 | linking an unmatched right node keeps the arrays mutually referent but for the left node's old partner |
| `MaxBipartiteMatch.LinkPushed` | lib/googlemock/src/gmock-matchers.cc:274-281 | linking after a deeper success repairs the one stale entry |
| `MaxBipartiteMatch.MaxBipartiteMatchState.TryAugment` | lib/googlemock/src/gmock-matchers.cc:259-285 | terminates; true adds exactly this left node and frames seen nodes; false changes neither array, marks all its neighbours, and every newly seen right node is matched to a left node all of whose neighbours are seen |
| `MaxBipartiteMatch.CertifyFound` | lib/googlemock/src/gmock-matchers.cc:212-221 | after a success the new left node completes a cover of the size of the matching |
| `MaxBipartiteMatch.CertifyFailed` | lib/googlemock/src/gmock-matchers.cc:212-221 | after a failure moving seen pairs to their right ends covers the new node's edges at the same size |
| `MaxBipartiteMatch.MaxBipartiteMatchState.Visit` | lib/googlemock/src/gmock-matchers.cc:222-230 | the left node tried is unmatched, so the check never fires; the cover certificate is kept |
| `MaxBipartiteMatch.MaxBipartiteMatchState.Collect` | lib/googlemock/src/gmock-matchers.cc:231-237 | the result lists the matching: edges, no node twice, one entry for each pair |
| `MaxBipartiteMatch.MaxBipartiteMatchState.Compute` | lib/googlemock/src/gmock-matchers.cc:207-238 | the pairs form a matching and no matching of the graph is larger |
| `MaxBipartiteMatch.FindMaxBipartiteMatching` | lib/googlemock/src/gmock-matchers.cc:307-310 | the same for every graph |
| `UnorderedElements.FindPairing` | lib/googlemock/src/gmock-matchers.cc:328-357 | true exactly when some injective assignment gives every matcher its own matching element |
| `UnorderedElements.AssignmentMatches` | lib/googlemock/src/gmock-matchers.cc:332-333 | an assignment is a matching as large as there are matchers |
| `UnorderedElements.PairingAssigns` | lib/googlemock/src/gmock-matchers.cc:332-333 | a matching as large as there are matchers yields an assignment |
| `UnorderedElements.VerifyAllElementsAndMatchersAreMatched` | lib/googlemock/src/gmock-matchers.cc:443-495 | true exactly when every matcher and every element has a partner |
| `UnorderedElements.PreCheckHarmless` | lib/googlemock/src/gmock-matchers.cc:438-442 | on square matrices the pre-check rejects nothing that has an assignment |
| `UnorderedElements.MatchAndExplain` | lib/googlemock/include/gmock/gmock-matchers.h:3376-3403 | true exactly when elements and matchers are equally many and can be paired |
| `Expectations.PriorLeast` | lib/googlemock/src/gmock-spec-builders.cc:97-101 | a closed set holding the immediate prerequisites holds all transitive ones, which justifies the early return |
| `Expectations.PriorClosed` | lib/googlemock/src/gmock-spec-builders.cc:103-110 | the transitive prerequisites are closed and hold the immediate ones |
| `Expectations.Registry.RetireAllPreRequisites` | lib/googlemock/src/gmock-spec-builders.cc:95-111 | retires exactly the transitive prerequisites, touches no other, keeps the retired set closed |
| `Expectations.Registry.AllPrerequisitesAreSatisfied` | lib/googlemock/src/gmock-spec-builders.cc:115-125 | true exactly when every transitive prerequisite is satisfied |
| `Expectations.Registry.FindUnsatisfiedPrerequisites` | lib/googlemock/src/gmock-spec-builders.cc:128-146 | adds exactly the unsatisfied expectations reached through satisfied ones never called; from an empty result, in a sound registry, empty exactly when all prerequisites are satisfied |
| `Expectations.FrontierSound` | lib/googlemock/src/gmock-spec-builders.cc:139-144 | everything found is an unsatisfied transitive prerequisite |
| `Expectations.FrontierExact` | lib/googlemock/src/gmock-spec-builders.cc:133-138 | pruning at satisfied expectations that were called loses no verdict |
| `Expectations.FrontierReached` | lib/googlemock/src/gmock-spec-builders.cc:128-146 | found is exactly what is unsatisfied and has a path from the expectation through satisfied ones never called |
| `Expectations.Registry.AddNewExpectation` | lib/googlemock/include/gmock/gmock-spec-builders.h:1600-1618 | a new expectation waits for the last one of the implicit sequence, if there is one, and for nothing else; it becomes the last one; the registry stays sound and that of the extended program |
| `Expectations.Registry.TryHandle` | lib/googlemock/include/gmock/gmock-spec-builders.h:1092-1218 | which calls are handled, what is counted and retired; the registry of a program becomes that of the program with this call; called and allowing a call still implies all prerequisites satisfied and retired |
| `Expectations.RetiredExact` | lib/googlemock/include/gmock/gmock-spec-builders.h:1194-1212 | in every program an expectation is retired if and only if something that waits for it and allows a call was called, or it retires on saturation, allows a call and has had its maximum |
| `Expectations.CountsExact` | lib/googlemock/include/gmock/gmock-spec-builders.h:1194-1209 | in every program the count kept is the number of calls handled |
| `Expectations.HandledExact` | lib/googlemock/include/gmock/gmock-spec-builders.h:1092-1109 | in every program a call is handled if and only if the numbers of calls handled before leave it unretired and every transitive prerequisite between its minimum and maximum |
| `Expectations.Sequence.AddExpectation` | lib/googlemock/src/gmock-spec-builders.cc:794-802 | adds exactly the previous expectation as a prerequisite, once; the registry stays sound if that one is older and the expectation is not yet in use |
| `Expectations.ExcessCallsUnsettle` | lib/googlemock/include/gmock/gmock-spec-builders.h:1194-1206 | for every expectation that allows no call a program leaves one with these clauses called and a prerequisite unsatisfied |
| `Expectations.CalledSettledExact` | lib/googlemock/include/gmock/gmock-spec-builders.h:1194-1212 | in every program a called expectation of given clauses has all prerequisites satisfied if and only if its maximum is positive |
| `Expectations.DeedSound` | lib/googlemock/include/gmock/gmock-spec-builders.h:1092-1218 | every EXPECT_CALL and every call keeps: called and allowing a call implies all transitive prerequisites satisfied and retired |
| `Expectations.CallSound` | lib/googlemock/include/gmock/gmock-spec-builders.h:1194-1212 | the same for one handled call: no other settled expectation is disturbed, for retired ones take no calls |
| `Expectations.ExtendSound` | lib/googlemock/src/gmock-spec-builders.cc:794-802 | a new prerequisite of an expectation not yet in use unsettles nothing |
| `LineReader.LinesMeaning` | lib/glog/src/symbolize.cc:402-406 | the specified lines are the one division of the text into fitting terminated lines and a rest without one |
| `LineReader.Reader.Read` | lib/glog/src/symbolize.cc:147-147 | any positive short read, nothing only at the end, or an error |
| `LineReader.Reader.ReadPersistent` | lib/glog/src/symbolize.cc:140-158 | short reads add up to the count or to the end of the file, unless one fails |
| `LineReader.Reader.Refill` | lib/glog/src/symbolize.cc:418-432 | moving the unfinished line and reading on loses and repeats nothing |
| `LineReader.Reader.ReadLine` | lib/glog/src/symbolize.cc:407-443 | absent a read error, true exactly when the next line with its newline fits the buffer; yields it with a NUL for the newline and leaves the text after it; after the end of the file or an error it can be called again, and after the end there is no line left |
| `LineReader.ReadLines` | lib/glog/src/symbolize.cc:526-533 | the lines yielded before the first false are the specified lines, for every file, buffer size and chunking; a prefix of them if a read fails |
| `HexNumbers.DigitsMeaning` | lib/glog/src/symbolize.cc:664-680 | the digits denote the number, are lower-case and below the base, at least as many as the padding, and have no superfluous leading zero |
| `HexNumbers.DigitsExact` | lib/glog/src/symbolize.cc:664-680 | a text is what the loop leaves if and only if it is such a numeral |
| `HexNumbers.ValueInjective` | lib/glog/src/symbolize.cc:664-680 | a digit string of given length is determined by its value |
| `HexNumbers.EmitDigits` | lib/glog/src/symbolize.cc:664-680 | writes the digits in reverse, or fails exactly when digits and terminator do not fit |
| `HexNumbers.ReverseRange` | lib/glog/src/symbolize.cc:685-693 | reverses the range in place and nothing else |
| `HexNumbers.ItoaR` | lib/glog/src/symbolize.cc:637-695 | never writes past `sz`; the text is a minus sign and the numeral of the negation for negative numbers in base 10, else the numeral modulo 2^64; it is written with a terminator, or the call fails exactly when the base is out of range or that does not fit |
| `HexNumbers.DenotesUnique` | lib/glog/src/symbolize.cc:637-695 | there is exactly one such text for a number, base and padding |
| `HexNumbers.GetHex` | lib/glog/src/symbolize.cc:482-496 | stops at the first other character with the digits' value modulo 2^64 |
| `HexNumbers.HexRoundTrip` | lib/glog/src/symbolize.cc:712-716 | every 64-bit value takes at most 16 digits and is read back |
| `HexNumbers.SafeAppendString` | lib/glog/src/symbolize.cc:699-707 | the destination holds the concatenation, cut to its size, and NULs from there to its end |
| `HexNumbers.SafeAppendHexNumber` | lib/glog/src/symbolize.cc:712-716 | appends the hexadecimal digits; the 17-byte buffer always suffices |
| `GlobMatch.GlobMeansSplit` | lib/glog/src/vlog_is_on.cc:65-68 | the recursive glob is the split of the text into one piece for each pattern character |
| `GlobMatch.SafeFNMatch` | lib/glog/src/vlog_is_on.cc:69-96 | accepts exactly the splits that use stars as described; sound for every pattern and text; on star-free texts exactly the effective glob |
| `GlobMatch.AfterStar` | lib/glog/src/vlog_is_on.cc:86-92 | tries the rest of the pattern at every position before the end |
| `GlobMatch.FnMatchSound` | lib/glog/src/vlog_is_on.cc:69-96 | whatever the code accepts matches the glob |
| `GlobMatch.FnMatchExact` | lib/glog/src/vlog_is_on.cc:76-93 | on star-free texts the code decides the effective glob, both ways |
| `GlobMatch.CodeSplitsExact` | lib/glog/src/vlog_is_on.cc:69-96 | for every pattern and text: accepted if and only if the text splits so that a star meeting a star stands for it alone, and any other but the last leaves some text |
| `GlobMatch.PatternDecided` | lib/glog/src/vlog_is_on.cc:78-78 | a pattern is decided correctly on all star-free texts if and only if it does not end in two stars |
| `GlobMatch.PatternDecidedEverywhere` | lib/glog/src/vlog_is_on.cc:69-96 | a pattern is decided correctly on all texts if and only if it has no star |
| `GlobMatch.DoubledFails` | lib/glog/src/vlog_is_on.cc:79-92 | for every pattern with a star a text that matches the glob and is refused |
| `GlobMatch.TextDecided` | lib/glog/src/vlog_is_on.cc:79-83 | a text is decided correctly against all other patterns if and only if it has no star |
| `StringLiteral.PrintCharsAsStringTo` | lib/googletest/src/gtest-printers.cc:262-278 | the loop with its flag prints the specified text: quotes around one spelling for each byte, broken exactly between a hexadecimal escape and a hexadecimal digit |
| `StringLiteral.SpellingExact` | lib/googletest/src/gtest-printers.cc:145-210 | a text is printed for a byte if and only if it is `\0` for NUL, the character itself if printable and neither double quote nor backslash, its own escape for these two and 7 to 13, else upper-case hexadecimal without leading zero |
| `StringLiteral.PrintedLayout` | lib/googletest/src/gtest-printers.cc:262-278 | the printed text is one spelling after another, with a break exactly where a byte printed by number meets a hexadecimal digit |
| `StringLiteral.ReadByte` | lib/googletest/src/gtest-printers.cc:146-203 | each printed character reads back as itself when what follows cannot extend its escape |
| `StringLiteral.HexEnds` | lib/googletest/src/gtest-printers.cc:269-274 | the split keeps a hexadecimal digit from following a hexadecimal escape |
| `StringLiteral.BodyReads` | lib/googletest/src/gtest-printers.cc:267-276 | the rest of the text reads back as its meaning after any escape |
| `StringLiteral.PrintedReads` | lib/googletest/src/gtest-printers.cc:262-278 | every printed text is well-formed C++ and reads back as its meaning |
| `StringLiteral.RoundTripExact` | lib/googletest/src/gtest-printers.cc:146-278 | it reads back as the original if and only if no NUL is followed by an octal digit |
| `TruncateLog.CopyBlock` | lib/glog/src/logging.cc:1896-1905 | a block read ahead of the writing is unspoilt; writing any prefix of it extends what was kept by exactly that prefix and leaves the rest of the file |
| `TruncateLog.CopyDown` | lib/glog/src/logging.cc:1892-1907 | terminates under any short reads and writes; the file is the written prefixes of the blocks read, in order, then its old contents; the blocks make up the last `keep` bytes, or a prefix of them after an error |
| `TruncateLog.TruncateLogFile` | lib/glog/src/logging.cc:1883-1914 | files above both limits end as the written prefixes of the blocks of their last `keep` bytes, followed by the old contents if `ftruncate` fails, and without trouble as exactly these bytes; others are untouched |

## Left out

- rpcz, protobuf and threads (`src/raft.rpcz.cc`): calls and replies are abstract. The required `prev_log_*` fields of `AppendRequest` that the leader never sets, and any refusal to send or parse on that account, are not modelled.
- Sleeps, clocks and random patience: a timeout is a step that may come at any time.
- `Kill` and status DEAD: a stopped node is one that takes no more steps; the destructor is not modelled.
- `Op`, `GetStatus`, the log and the leader's volatile indices: the repository has no log replication.
- Liveness: nothing is said about an election ever succeeding.
- The `Registry` of expectations stands for the shared objects: an expectation is its number in order of creation, and fields are kept by number. Prerequisites have smaller numbers because an EXPECT_CALL can only name expectations that exist; other acyclic graphs are covered up to renumbering. Argument matching, actions and messages are not modelled. A deed `Expect` stands for a whole EXPECT_CALL statement with its `After` and `InSequence` clauses.
- Loops over hash sets and ordered sets take any order.
- `MatchMatrix` keeps a set of edges instead of a flattened vector; listener messages are not modelled.
- LineReader.Reader.ReadLine: it is not called again once it found no line feed in a full buffer or in the last of the file, because the program would then compute an address from NULL; interrupted system calls are not modelled.
- HexNumbers.ItoaR: the least signed value in base 10 is excluded, because its negation is undefined in C++.
- `StringLiteral`: narrow characters only; trigraphs are not modelled. The output stream is the string built so far.
- TruncateLog: opening, `fstat`, symbolic links and writers that append during the copy are not modelled.
- `lib/glog/src/demangle.cc`, the ELF readers, stack unwinding, signal handling, file logging and the vmodule list: parsing without a progress measure, or effects of the operating system.
- Mock registry, reporting text, death tests, scripts and samples of the vendored libraries: process effects, or members easier than those here.
