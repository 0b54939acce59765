/**
 Google Mock's expectations and their prerequisites: a graph on which calls are
 counted and expectations retired.

 Expectations are numbered in the order of creation.  The clauses of an
 EXPECT_CALL can only name expectations that already exist, so prerequisites have
 smaller numbers; that is what makes the graph acyclic.
 */
module Expectations {
  import opened Basics

  /** The clauses that do not change after the EXPECT_CALL statement. */
  datatype Spec = Spec(min: nat, max: nat, retiresOnSaturation: bool)

  /** For each expectation its immediate prerequisites. */
  type Graph = seq<set<nat>>

  ghost predicate Ordered(g: Graph) {
    forall e, p :: 0 <= e < |g| && p in g[e] ==> p < e
  }

  /** The transitive prerequisites of `e`. */
  ghost function Prior(g: Graph, e: nat): (s: set<nat>)
    requires Ordered(g) && e < |g|
    ensures forall p :: p in s ==> p < e
    decreases e
  {
    g[e] + PriorOf(g, g[e], e)
  }

  /** The transitive prerequisites of the members of `ps`, all below `bound`. */
  ghost function PriorOf(g: Graph, ps: set<nat>, bound: nat): (s: set<nat>)
    requires Ordered(g) && bound <= |g| && forall p :: p in ps ==> p < bound
    ensures forall p :: p in s ==> p < bound
    decreases bound, 0
  {
    set p, q | p in ps && q in Prior(g, p) :: q
  }

  ghost predicate DownwardClosed(g: Graph, s: set<nat>) {
    forall e, p :: 0 <= e < |g| && e in s && p in g[e] ==> p in s
  }

  lemma PriorMember(g: Graph, e: nat, q: nat)
    requires Ordered(g) && e < |g|
    ensures q in Prior(g, e) <==> q in g[e] || exists p :: p in g[e] && q in Prior(g, p)
  {}

  /** The transitive prerequisites are the least set that holds the immediate ones and is closed. */
  lemma {:induction false} PriorLeast(g: Graph, e: nat, s: set<nat>)
    requires Ordered(g) && e < |g| && g[e] <= s && DownwardClosed(g, s)
    ensures Prior(g, e) <= s
    decreases e
  {
    forall q | q in Prior(g, e) ensures q in s {
      PriorMember(g, e, q);
      if q !in g[e] {
        var p :| p in g[e] && q in Prior(g, p);
        PriorLeast(g, p, s);
      }
    }
  }

  lemma {:induction false} PriorClosed(g: Graph, e: nat)
    requires Ordered(g) && e < |g|
    ensures g[e] <= Prior(g, e) && DownwardClosed(g, Prior(g, e))
    decreases e
  {
    forall q, r | 0 <= q < |g| && q in Prior(g, e) && r in g[q] ensures r in Prior(g, e) {
      PriorMember(g, e, q);
      PriorMember(g, e, r);
      if q in g[e] {
        PriorMember(g, q, r);
      } else {
        var p :| p in g[e] && q in Prior(g, p);
        PriorClosed(g, p);
      }
    }
  }

  /** Retiring an expectation together with everything before it keeps the set closed. */
  lemma RetireKeepsClosed(g: Graph, s: set<nat>, e: nat)
    requires Ordered(g) && e < |g| && DownwardClosed(g, s)
    ensures DownwardClosed(g, s + Prior(g, e)) && DownwardClosed(g, s + Prior(g, e) + {e})
  {
    PriorClosed(g, e);
  }

  /** The members of `ps` and everything before them. */
  ghost function UpTo(g: Graph, ps: set<nat>, bound: nat): set<nat>
    requires Ordered(g) && bound <= |g| && forall p :: p in ps ==> p < bound
  {
    ps + PriorOf(g, ps, bound)
  }

  lemma UpToMore(g: Graph, start: set<nat>, ps: set<nat>, p: nat, bound: nat)
    requires Ordered(g) && bound <= |g| && p < bound && forall q :: q in ps ==> q < bound
    ensures start + UpTo(g, ps + {p}, bound) == start + UpTo(g, ps, bound) + Prior(g, p) + {p}
  {}

  // ----- satisfaction

  predicate Sat(specs: seq<Spec>, counts: seq<nat>, e: nat)
    requires e < |specs| == |counts|
  {
    specs[e].min <= counts[e] <= specs[e].max
  }

  ghost predicate AllPriorSat(g: Graph, specs: seq<Spec>, counts: seq<nat>, e: nat)
    requires Ordered(g) && e < |g| == |specs| == |counts|
  {
    forall p :: p in Prior(g, e) ==> Sat(specs, counts, p)
  }

  /** What the search finds below `e`. */
  ghost function Frontier(g: Graph, specs: seq<Spec>, counts: seq<nat>, e: nat): set<nat>
    requires Ordered(g) && e < |g| == |specs| == |counts|
    decreases e, 0, 1
  {
    ShownOf(g, specs, counts, g[e], e)
  }

  ghost function ShownOf(g: Graph, specs: seq<Spec>, counts: seq<nat>, ps: set<nat>, bound: nat): set<nat>
    requires Ordered(g) && bound <= |g| == |specs| == |counts| && forall p :: p in ps ==> p < bound
    decreases bound, 0, 0
  {
    set p, q | p in ps && q in Shown(g, specs, counts, p) :: q
  }

  lemma ShownOfMore(g: Graph, specs: seq<Spec>, counts: seq<nat>, start: set<nat>, ps: set<nat>, p: nat, bound: nat)
    requires Ordered(g) && bound <= |g| == |specs| == |counts| && p < bound && forall q :: q in ps ==> q < bound
    ensures start + ShownOf(g, specs, counts, ps + {p}, bound)
         == start + ShownOf(g, specs, counts, ps, bound) + Shown(g, specs, counts, p)
  {}

  /** An unsatisfied prerequisite is reported; a satisfied one never called is searched. */
  ghost function Shown(g: Graph, specs: seq<Spec>, counts: seq<nat>, p: nat): set<nat>
    requires Ordered(g) && p < |g| == |specs| == |counts|
    decreases p, 1
  {
    if !Sat(specs, counts, p) then {p}
    else if counts[p] == 0 then Frontier(g, specs, counts, p)
    else {}
  }

  /** Satisfied expectations that were called waited for satisfied ones. */
  ghost predicate Settled(g: Graph, specs: seq<Spec>, counts: seq<nat>)
    requires Ordered(g) && |g| == |specs| == |counts|
  {
    forall e :: 0 <= e < |g| && Sat(specs, counts, e) && counts[e] > 0 ==> AllPriorSat(g, specs, counts, e)
  }

  /** Everything reported is an unsatisfied transitive prerequisite. */
  lemma {:induction false} FrontierSound(g: Graph, specs: seq<Spec>, counts: seq<nat>, e: nat, q: nat)
    requires Ordered(g) && e < |g| == |specs| == |counts| && q in Frontier(g, specs, counts, e)
    ensures q in Prior(g, e) && !Sat(specs, counts, q)
    decreases e
  {
    assert q in ShownOf(g, specs, counts, g[e], e);
    var p :| p in g[e] && q in Shown(g, specs, counts, p);
    PriorMember(g, e, q);
    if Sat(specs, counts, p) {
      FrontierSound(g, specs, counts, p, q);
    }
  }

  /** The pruned search comes back empty-handed exactly when all prerequisites are satisfied. */
  lemma {:induction false} FrontierExact(g: Graph, specs: seq<Spec>, counts: seq<nat>, e: nat)
    requires Ordered(g) && e < |g| == |specs| == |counts| && Settled(g, specs, counts)
    ensures Frontier(g, specs, counts, e) == {} <==> AllPriorSat(g, specs, counts, e)
    decreases e
  {
    if AllPriorSat(g, specs, counts, e) {
      forall q | q in Frontier(g, specs, counts, e) ensures false {
        FrontierSound(g, specs, counts, e, q);
      }
    } else {
      var q :| q in Prior(g, e) && !Sat(specs, counts, q);
      PriorMember(g, e, q);
      var p := q;
      if q !in g[e] {
        p :| p in g[e] && q in Prior(g, p);
        FrontierExact(g, specs, counts, p);
        assert !AllPriorSat(g, specs, counts, p);
      }
      assert Shown(g, specs, counts, p) != {};
      var r :| r in Shown(g, specs, counts, p);
      assert r in ShownOf(g, specs, counts, g[e], e);
    }
  }

  /** A way down from `e` to `q` through satisfied expectations that were never called. */
  ghost predicate Path(g: Graph, specs: seq<Spec>, counts: seq<nat>, path: seq<nat>, e: nat, q: nat)
    requires |g| == |specs| == |counts|
  {
    && |path| >= 2 && path[0] == e && path[|path| - 1] == q
    && (forall i :: 0 <= i < |path| ==> path[i] < |g|)
    && (forall i :: 0 <= i < |path| - 1 ==> path[i + 1] in g[path[i]])
    && (forall i :: 0 < i < |path| - 1 ==> Sat(specs, counts, path[i]) && counts[path[i]] == 0)
  }

  ghost predicate Reached(g: Graph, specs: seq<Spec>, counts: seq<nat>, e: nat, q: nat)
    requires |g| == |specs| == |counts|
  {
    q < |g| && !Sat(specs, counts, q) && exists path :: Path(g, specs, counts, path, e, q)
  }

  lemma {:induction false} FrontierHasPath(g: Graph, specs: seq<Spec>, counts: seq<nat>, e: nat, q: nat)
    returns (path: seq<nat>)
    requires Ordered(g) && e < |g| == |specs| == |counts| && q in Frontier(g, specs, counts, e)
    ensures q < |g| && !Sat(specs, counts, q) && Path(g, specs, counts, path, e, q)
    decreases e
  {
    assert q in ShownOf(g, specs, counts, g[e], e);
    var p :| p in g[e] && q in Shown(g, specs, counts, p);
    if !Sat(specs, counts, p) {
      path := [e, q];
    } else {
      var rest := FrontierHasPath(g, specs, counts, p, q);
      path := [e] + rest;
    }
  }

  lemma {:induction false} PathInFrontier(g: Graph, specs: seq<Spec>, counts: seq<nat>, path: seq<nat>, e: nat, q: nat)
    requires Ordered(g) && e < |g| == |specs| == |counts|
    requires q < |g| && !Sat(specs, counts, q) && Path(g, specs, counts, path, e, q)
    ensures q in Frontier(g, specs, counts, e)
    decreases |path|
  {
    var p := path[1];
    assert p in g[path[0]];
    if |path| > 2 {
      PathInFrontier(g, specs, counts, path[1..], p, q);
    }
    assert q in Shown(g, specs, counts, p);
    assert q in ShownOf(g, specs, counts, g[e], e);
  }

  /** Reported is exactly what is unsatisfied and reached through satisfied expectations never called. */
  lemma FrontierReached(g: Graph, specs: seq<Spec>, counts: seq<nat>, e: nat, q: nat)
    requires Ordered(g) && e < |g| == |specs| == |counts|
    ensures q in Frontier(g, specs, counts, e) <==> Reached(g, specs, counts, e, q)
  {
    if q in Frontier(g, specs, counts, e) {
      var path := FrontierHasPath(g, specs, counts, e, q);
    }
    if Reached(g, specs, counts, e, q) {
      var path :| Path(g, specs, counts, path, e, q);
      PathInFrontier(g, specs, counts, path, e, q);
    }
  }

  /** Prerequisites depend only on older parts of the graph. */
  lemma {:induction false} PriorAgree(g: Graph, g': Graph, e: nat)
    requires Ordered(g) && Ordered(g') && e < |g| && e < |g'| && g[..e + 1] == g'[..e + 1]
    ensures Prior(g, e) == Prior(g', e)
    decreases e
  {
    assert g[e] == g[..e + 1][e] == g'[e];
    forall p | p in g[e] ensures Prior(g, p) == Prior(g', p) {
      assert g[..p + 1] == g[..e + 1][..p + 1];
      PriorAgree(g, g', p);
    }
    forall q ensures q in Prior(g, e) <==> q in Prior(g', e) {
      PriorMember(g, e, q);
      PriorMember(g', e, q);
    }
  }

  /** An edge added below `e` concerns only `e` and what waits for it. */
  lemma {:induction false} PriorElsewhere(g: Graph, e: nat, p: nat, f: nat)
    requires Ordered(g) && p < e < |g| && f < |g| && f != e && e !in Prior(g, f)
    ensures Ordered(g[e := g[e] + {p}]) && Prior(g[e := g[e] + {p}], f) == Prior(g, f)
    decreases f
  {
    var g' := g[e := g[e] + {p}];
    PriorClosed(g, f);
    forall q | q in g[f] ensures Prior(g', q) == Prior(g, q) {
      PriorLeast(g, q, Prior(g, f));
      PriorElsewhere(g, e, p, q);
    }
    forall q ensures q in Prior(g', f) <==> q in Prior(g, f) {
      PriorMember(g, f, q);
      PriorMember(g', f, q);
    }
  }

  // ----- whole runs

  /** The state of a mock program: what was expected, counted and retired. */
  datatype Books = Books(specs: seq<Spec>, graph: Graph, counts: seq<nat>, retired: set<nat>)

  ghost predicate WellFormed(b: Books) {
    |b.specs| == |b.graph| == |b.counts| && Ordered(b.graph)
  }

  /** Everything `e` waits for is satisfied and retired. */
  ghost predicate PastSettled(b: Books, e: nat)
    requires WellFormed(b) && e < |b.graph|
  {
    AllPriorSat(b.graph, b.specs, b.counts, e) && Prior(b.graph, e) <= b.retired
  }

  /** Retired sets are closed, and whatever was called and allows a call has settled its past. */
  ghost predicate SoundBooks(b: Books) {
    && WellFormed(b) && DownwardClosed(b.graph, b.retired) && (forall e :: e in b.retired ==> e < |b.graph|)
    && forall e :: 0 <= e < |b.graph| && b.specs[e].max > 0 && b.counts[e] > 0 ==> PastSettled(b, e)
  }

  datatype Deed =
    | Expect(spec: Spec, prerequisites: set<nat>)  // an EXPECT_CALL statement with its After and InSequence clauses
    | Call(e: nat)                                 // a call whose arguments match expectation `e`

  ghost predicate Handles(b: Books, e: nat)
    requires WellFormed(b) && e < |b.graph|
  {
    e !in b.retired && AllPriorSat(b.graph, b.specs, b.counts, e)
  }

  ghost function AfterCall(b: Books, e: nat): Books
    requires WellFormed(b) && e < |b.graph|
  {
    if !Handles(b, e) then b else
    var counts := b.counts[e := b.counts[e] + 1];
    if b.counts[e] >= b.specs[e].max then b.(counts := counts) else
    var own := if b.specs[e].retiresOnSaturation && counts[e] >= b.specs[e].max then {e} else {};
    b.(counts := counts, retired := b.retired + Prior(b.graph, e) + own)
  }

  function AfterExpect(b: Books, spec: Spec, ps: set<nat>): Books {
    Books(b.specs + [spec], b.graph + [ps], b.counts + [0], b.retired)
  }

  /** A deed that names an expectation that does not exist cannot be written; it changes nothing. */
  ghost function AfterDeed(b: Books, d: Deed): Books
    requires WellFormed(b)
  {
    match d
    case Expect(spec, ps) => if forall p :: p in ps ==> p < |b.graph| then AfterExpect(b, spec, ps) else b
    case Call(e) => if e < |b.graph| then AfterCall(b, e) else b
  }

  /** The books after a program's deeds. */
  ghost function Program(deeds: seq<Deed>): (b: Books)
    ensures SoundBooks(b)
  {
    if deeds == [] then Books([], [], [], {})
    else
      var b := Program(deeds[..|deeds| - 1]);
      DeedSound(b, deeds[|deeds| - 1]);
      AfterDeed(b, deeds[|deeds| - 1])
  }

  lemma DeedSound(b: Books, d: Deed)
    requires SoundBooks(b)
    ensures SoundBooks(AfterDeed(b, d))
  {
    match d
    case Expect(spec, ps) => if forall p :: p in ps ==> p < |b.graph| { ExpectSound(b, spec, ps); }
    case Call(e) => if e < |b.graph| && Handles(b, e) { CallSound(b, e); }
  }

  lemma ExpectSound(b: Books, spec: Spec, ps: set<nat>)
    requires SoundBooks(b) && forall p :: p in ps ==> p < |b.graph|
    ensures SoundBooks(AfterExpect(b, spec, ps))
  {
    var b' := AfterExpect(b, spec, ps);
    forall e | 0 <= e < |b.graph| && b.specs[e].max > 0 && b.counts[e] > 0 ensures PastSettled(b', e) {
      assert PastSettled(b, e);
      assert b.graph[..e + 1] == b'.graph[..e + 1];
      PriorAgree(b.graph, b'.graph, e);
    }
  }

  /** Counting a call of an expectation not retired disturbs no other settled one. */
  lemma CountKeepsOthers(b: Books, e: nat, f: nat)
    requires SoundBooks(b) && e < |b.graph| && f < |b.graph| && e !in b.retired
    requires f != e && b.specs[f].max > 0 && b.counts[f] > 0
    ensures PastSettled(b.(counts := b.counts[e := b.counts[e] + 1]), f)
  {
    assert PastSettled(b, f);
  }

  lemma CallSound(b: Books, e: nat)
    requires SoundBooks(b) && e < |b.graph| && Handles(b, e)
    ensures SoundBooks(AfterCall(b, e))
  {
    var b' := AfterCall(b, e);
    RetireKeepsClosed(b.graph, b.retired, e);
    forall f | 0 <= f < |b.graph| && b.specs[f].max > 0 && b'.counts[f] > 0 ensures PastSettled(b', f) {
      if f != e {
        CountKeepsOthers(b, e, f);
      } else if b.counts[e] > 0 {
        assert PastSettled(b, e);
      }
    }
  }

  lemma ProgramSnoc(deeds: seq<Deed>, d: Deed)
    ensures Program(deeds + [d]) == AfterDeed(Program(deeds), d)
  {
    assert (deeds + [d])[..|deeds|] == deeds;
  }

  /** Two expectations that allow no call, the second after the first. */
  ghost function Pair(spec: Spec, first: nat, second: nat): (b: Books)
    ensures WellFormed(b)
  {
    Books([Spec(0, 0, false), spec], [{}, {0}], [first, second], {})
  }

  lemma PairPrior(spec: Spec, first: nat, second: nat)
    ensures Prior(Pair(spec, first, second).graph, 0) == {}
    ensures Prior(Pair(spec, first, second).graph, 1) == {0}
  {
    var g := Pair(spec, first, second).graph;
    PriorLeast(g, 0, {});
    PriorLeast(g, 1, {0});
    PriorClosed(g, 1);
  }

  lemma PairCalled(spec: Spec)
    requires spec.max == 0
    ensures AfterCall(Pair(spec, 0, 0), 1) == Pair(spec, 0, 1)
    ensures AfterCall(Pair(spec, 0, 1), 0) == Pair(spec, 1, 1)
  {
    PairPrior(spec, 0, 0);
    PairPrior(spec, 0, 1);
    assert Handles(Pair(spec, 0, 0), 1) && Handles(Pair(spec, 0, 1), 0);
  }

  lemma PairExpected(spec: Spec)
    ensures Program([Expect(Spec(0, 0, false), {})] + [Expect(spec, {0})]) == Pair(spec, 0, 0)
  {
    var d := Expect(Spec(0, 0, false), {});
    assert [] + [d] == [d];
    ProgramSnoc([], d);
    ProgramSnoc([d], Expect(spec, {0}));
  }

  /** A program to an expectation of the given clauses, called, with an unsatisfied prerequisite. */
  lemma ExcessCallsUnsettle(spec: Spec) returns (deeds: seq<Deed>)
    requires spec.max == 0
    ensures var b := Program(deeds);
            |b.specs| == 2 && b.specs[1] == spec && b.counts[1] > 0 && !AllPriorSat(b.graph, b.specs, b.counts, 1)
  {
    deeds := [Expect(Spec(0, 0, false), {})] + [Expect(spec, {0})];
    PairExpected(spec);
    PairCalled(spec);
    ProgramSnoc(deeds, Call(1));
    deeds := deeds + [Call(1)];
    ProgramSnoc(deeds, Call(0));
    deeds := deeds + [Call(0)];
    PairPrior(spec, 1, 1);
    assert !Sat(Pair(spec, 1, 1).specs, [1, 1], 0);
  }

  // ----- what a program's calls come to

  /** Something that waits for `e` and allows a call has been called. */
  ghost predicate Outrun(b: Books, e: nat)
    requires WellFormed(b)
  {
    exists f :: 0 <= f < |b.graph| && e in Prior(b.graph, f) && b.specs[f].max > 0 && b.counts[f] > 0
  }

  /** `e` asked to be retired when saturated, and is. */
  predicate Spent(b: Books, e: nat)
    requires e < |b.specs| && e < |b.counts|
  {
    b.specs[e].retiresOnSaturation && b.specs[e].max > 0 && b.counts[e] >= b.specs[e].max
  }

  ghost predicate RetiredRightly(b: Books)
    requires WellFormed(b)
  {
    forall e :: 0 <= e < |b.graph| ==> (e in b.retired <==> Outrun(b, e) || Spent(b, e))
  }

  /** A new expectation outruns nothing, and nothing outruns it. */
  lemma ExpectOutruns(b: Books, spec: Spec, ps: set<nat>, e: nat)
    requires WellFormed(b) && e <= |b.graph| && forall p :: p in ps ==> p < |b.graph|
    ensures WellFormed(AfterExpect(b, spec, ps)) && Outrun(AfterExpect(b, spec, ps), e) == Outrun(b, e)
  {
    var b' := AfterExpect(b, spec, ps);
    forall f | 0 <= f < |b.graph| ensures Prior(b'.graph, f) == Prior(b.graph, f) {
      assert b.graph[..f + 1] == b'.graph[..f + 1];
      PriorAgree(b.graph, b'.graph, f);
    }
    if Outrun(b, e) {
      var f :| 0 <= f < |b.graph| && e in Prior(b.graph, f) && b.specs[f].max > 0 && b.counts[f] > 0;
      assert e in Prior(b'.graph, f) && b'.specs[f].max > 0 && b'.counts[f] > 0;
    }
  }

  lemma ExpectRetires(b: Books, spec: Spec, ps: set<nat>)
    requires SoundBooks(b) && RetiredRightly(b) && forall p :: p in ps ==> p < |b.graph|
    ensures WellFormed(AfterExpect(b, spec, ps)) && RetiredRightly(AfterExpect(b, spec, ps))
  {
    var b' := AfterExpect(b, spec, ps);
    forall e | 0 <= e < |b'.graph| ensures e in b'.retired <==> Outrun(b', e) || Spent(b', e) {
      ExpectOutruns(b, spec, ps, e);
    }
  }

  /** A handled call of `e` outruns what `e` waits for, if `e` allows a call. */
  lemma CallOutruns(b: Books, e: nat, q: nat)
    requires WellFormed(b) && e < |b.graph|
    ensures var b' := b.(counts := b.counts[e := b.counts[e] + 1]);
            WellFormed(b') && (Outrun(b', q) <==> Outrun(b, q) || (b.specs[e].max > 0 && q in Prior(b.graph, e)))
  {
    var b' := b.(counts := b.counts[e := b.counts[e] + 1]);
    if Outrun(b, q) {
      var f :| 0 <= f < |b.graph| && q in Prior(b.graph, f) && b.specs[f].max > 0 && b.counts[f] > 0;
      assert b'.counts[f] > 0;
    }
    if b.specs[e].max > 0 && q in Prior(b.graph, e) {
      assert b'.counts[e] > 0;
    }
  }

  lemma OutrunIgnoresRetired(b: Books, retired: set<nat>, q: nat)
    requires WellFormed(b)
    ensures Outrun(b.(retired := retired), q) == Outrun(b, q)
  {
    assert forall f :: 0 <= f < |b.graph| ==> Prior(b.(retired := retired).graph, f) == Prior(b.graph, f);
  }

  lemma CallRetires(b: Books, e: nat)
    requires WellFormed(b) && RetiredRightly(b) && e < |b.graph| && Handles(b, e)
    ensures WellFormed(AfterCall(b, e)) && RetiredRightly(AfterCall(b, e))
  {
    var counted, b' := b.(counts := b.counts[e := b.counts[e] + 1]), AfterCall(b, e);
    forall q | 0 <= q < |b.graph| ensures q in b'.retired <==> Outrun(b', q) || Spent(b', q) {
      CallOutruns(b, e, q);
      OutrunIgnoresRetired(counted, b'.retired, q);
      if b.specs[e].max > 0 && b.counts[e] > 0 && q in Prior(b.graph, e) {
        assert Outrun(b, q);
      }
    }
  }

  /** In every program the retired expectations are those outrun and those spent. */
  lemma {:induction false} RetiredExact(deeds: seq<Deed>)
    ensures RetiredRightly(Program(deeds))
  {
    if deeds != [] {
      var front, d := deeds[..|deeds| - 1], deeds[|deeds| - 1];
      RetiredExact(front);
      DeedRetires(Program(front), d);
    }
  }

  lemma DeedRetires(b: Books, d: Deed)
    requires SoundBooks(b) && RetiredRightly(b)
    ensures WellFormed(AfterDeed(b, d)) && RetiredRightly(AfterDeed(b, d))
  {
    match d
    case Expect(spec, ps) => if forall p :: p in ps ==> p < |b.graph| { ExpectRetires(b, spec, ps); }
    case Call(e) => if e < |b.graph| && Handles(b, e) { CallRetires(b, e); }
  }

  /** Whether a call of `e` would be handled after the given deeds. */
  ghost predicate Handled(deeds: seq<Deed>, e: nat) {
    e < |Program(deeds).graph| && Handles(Program(deeds), e)
  }

  /** How many of the deeds were calls that `e` handled. */
  ghost function HandledCalls(deeds: seq<Deed>, e: nat): nat {
    if deeds == [] then 0
    else
      var front := deeds[..|deeds| - 1];
      HandledCalls(front, e) + if deeds[|deeds| - 1] == Call(e) && Handled(front, e) then 1 else 0
  }

  /** The count kept for an expectation is the number of its handled calls. */
  lemma {:induction false} CountsExact(deeds: seq<Deed>, e: nat)
    ensures HandledCalls(deeds, e) == if e < |Program(deeds).counts| then Program(deeds).counts[e] else 0
  {
    if deeds != [] {
      CountsExact(deeds[..|deeds| - 1], e);
    }
  }

  /** Every call is handled or not by the calls handled before it, and by nothing else. */
  ghost predicate HandledByCounts(deeds: seq<Deed>, e: nat) {
    var b := Program(deeds);
    && e < |b.specs|
    && (forall f :: 0 <= f < |b.specs| && e in Prior(b.graph, f) && b.specs[f].max > 0 ==> HandledCalls(deeds, f) == 0)
    && (b.specs[e].retiresOnSaturation && b.specs[e].max > 0 ==> HandledCalls(deeds, e) < b.specs[e].max)
    && (forall p :: p in Prior(b.graph, e) ==> b.specs[p].min <= HandledCalls(deeds, p) <= b.specs[p].max)
  }

  lemma HandledExact(deeds: seq<Deed>, e: nat)
    ensures Handled(deeds, e) <==> HandledByCounts(deeds, e)
  {
    RetiredExact(deeds);
    var b := Program(deeds);
    forall p: nat | p < |b.specs| ensures HandledCalls(deeds, p) == b.counts[p] {
      CountsExact(deeds, p);
    }
    if e < |b.specs| {
      assert e in b.retired <==> Outrun(b, e) || Spent(b, e);
    }
  }

  /** In every program an expectation of these clauses, once called, has only satisfied prerequisites. */
  ghost predicate AlwaysSettled(spec: Spec) {
    forall deeds, e ::
      var b := Program(deeds);
      0 <= e < |b.specs| && b.specs[e] == spec && b.counts[e] > 0 ==> AllPriorSat(b.graph, b.specs, b.counts, e)
  }

  /** It holds of exactly the expectations that allow a call. */
  lemma CalledSettledExact(spec: Spec)
    ensures AlwaysSettled(spec) <==> spec.max > 0
  {
    if spec.max > 0 {
      forall deeds, e |
        0 <= e < |Program(deeds).specs| && Program(deeds).specs[e] == spec && Program(deeds).counts[e] > 0
        ensures AllPriorSat(Program(deeds).graph, Program(deeds).specs, Program(deeds).counts, e)
      {
        assert PastSettled(Program(deeds), e);
      }
    } else {
      var deeds := ExcessCallsUnsettle(spec);
    }
  }

  lemma ExpectInProgram(b: Books, spec: Spec, ps: set<nat>)
    requires WellFormed(b) && forall p :: p in ps ==> p < |b.graph|
    ensures forall deeds :: b == Program(deeds) ==> AfterExpect(b, spec, ps) == Program(deeds + [Expect(spec, ps)])
  {
    forall deeds | b == Program(deeds) ensures AfterExpect(b, spec, ps) == Program(deeds + [Expect(spec, ps)]) {
      ProgramSnoc(deeds, Expect(spec, ps));
    }
  }

  lemma CallInProgram(b: Books, e: nat)
    requires WellFormed(b) && e < |b.graph|
    ensures forall deeds :: b == Program(deeds) ==>
      Handles(b, e) == HandledByCounts(deeds, e) && AfterCall(b, e) == Program(deeds + [Call(e)])
  {
    forall deeds | b == Program(deeds)
      ensures Handles(b, e) == HandledByCounts(deeds, e) && AfterCall(b, e) == Program(deeds + [Call(e)])
    {
      HandledExact(deeds, e);
      ProgramSnoc(deeds, Call(e));
    }
  }

  // ----- the mutable registry

  class Registry {
    var specs: seq<Spec>
    var graph: Graph
    var callCount: seq<nat>
    var retired: set<nat>

    ghost function State(): Books
      reads this
    {
      Books(specs, graph, callCount, retired)
    }

    ghost predicate Valid()
      reads this
    {
      WellFormed(State())
    }

    ghost predicate Sound()
      reads this
    {
      SoundBooks(State())
    }

    predicate IsSatisfied(e: nat)
      requires e < |specs| == |callCount|
      reads this`specs, this`callCount
    {
      Sat(specs, callCount, e)
    }

    predicate IsSaturated(e: nat)
      requires e < |specs| == |callCount|
      reads this`specs, this`callCount
    {
      callCount[e] >= specs[e].max
    }

    /** Retires everything `e` waits for, directly or not, and nothing else. */
    method RetireAllPreRequisites(e: nat)
      requires Valid() && e < |graph| && DownwardClosed(graph, retired)
      modifies this`retired
      decreases e, 1
      ensures retired == old(retired) + Prior(graph, e)
      ensures DownwardClosed(graph, retired)
    {
      RetireKeepsClosed(graph, retired, e);
      if e in retired {
        PriorLeast(graph, e, retired);
        return;
      }
      RetireEach(graph[e], e);
    }

    /** The loop over the immediate prerequisites. */
    method RetireEach(ps: set<nat>, ghost bound: nat)
      requires Valid() && bound <= |graph| && DownwardClosed(graph, retired)
      requires forall p :: p in ps ==> p < bound
      modifies this`retired
      decreases bound, 0
      ensures retired == old(retired) + UpTo(graph, ps, bound)
      ensures DownwardClosed(graph, retired)
    {
      var rest := ps;
      ghost var start, done: set<nat> := retired, {};
      while rest != {}
        invariant rest + done == ps
        invariant DownwardClosed(graph, retired)
        invariant retired == start + UpTo(graph, done, bound)
        decreases |rest|
      {
        var p :| p in rest;
        rest := rest - {p};
        UpToMore(graph, start, done, p, bound);
        RetireWithPrior(p);
        done := done + {p};
      }
      assert done == ps;
    }

    /** The body of the loop: a prerequisite not yet retired is retired after its own. */
    method RetireWithPrior(p: nat)
      requires Valid() && p < |graph| && DownwardClosed(graph, retired)
      modifies this`retired
      decreases p, 2
      ensures retired == old(retired) + Prior(graph, p) + {p}
      ensures DownwardClosed(graph, retired)
    {
      RetireKeepsClosed(graph, retired, p);
      if p !in retired {
        RetireAllPreRequisites(p);
        retired := retired + {p};
      } else {
        PriorLeast(graph, p, retired);
      }
    }

    /** Whether every transitive prerequisite has been satisfied. */
    method AllPrerequisitesAreSatisfied(e: nat) returns (all: bool)
      requires Valid() && e < |graph|
      decreases e
      ensures all <==> AllPriorSat(graph, specs, callCount, e)
    {
      var rest := graph[e];
      while rest != {}
        invariant rest <= graph[e]
        invariant forall p :: p in graph[e] - rest ==> IsSatisfied(p) && AllPriorSat(graph, specs, callCount, p)
        decreases |rest|
      {
        var p :| p in rest;
        rest := rest - {p};
        PriorClosed(graph, e);
        PriorLeast(graph, p, Prior(graph, e));
        if !IsSatisfied(p) {
          return false;
        }
        var deeper := AllPrerequisitesAreSatisfied(p);
        if !deeper {
          return false;
        }
      }
      forall q | q in Prior(graph, e) ensures IsSatisfied(q) {
        PriorMember(graph, e, q);
        if q !in graph[e] {
          var p :| p in graph[e] && q in Prior(graph, p);
          assert p in graph[e] - rest;
        } else {
          assert q in graph[e] - rest;
        }
      }
      return true;
    }

    /** Adds the unsatisfied prerequisites the pruned search meets to `result`. */
    method FindUnsatisfiedPrerequisites(e: nat, result: set<nat>) returns (r: set<nat>)
      requires Valid() && e < |graph|
      decreases e, 1
      ensures r == result + Frontier(graph, specs, callCount, e)
      ensures forall q :: q in r <==> q in result || Reached(graph, specs, callCount, e, q)
      ensures result == {} && (Sound() || Settled(graph, specs, callCount)) ==>
        (r == {} <==> AllPriorSat(graph, specs, callCount, e))
    {
      r := FindEach(graph[e], result, e);
      forall q: nat ensures q in Frontier(graph, specs, callCount, e) <==> Reached(graph, specs, callCount, e, q) {
        FrontierReached(graph, specs, callCount, e, q);
      }
      if Sound() || Settled(graph, specs, callCount) {
        FrontierExact(graph, specs, callCount, e);
      }
    }

    /** The loop over the immediate prerequisites. */
    method FindEach(ps: set<nat>, result: set<nat>, ghost bound: nat) returns (r: set<nat>)
      requires Valid() && bound <= |graph| && forall p :: p in ps ==> p < bound
      decreases bound, 0
      ensures r == result + ShownOf(graph, specs, callCount, ps, bound)
    {
      r := result;
      var rest := ps;
      ghost var done: set<nat> := {};
      while rest != {}
        invariant rest + done == ps
        invariant r == result + ShownOf(graph, specs, callCount, done, bound)
        decreases |rest|
      {
        var p :| p in rest;
        rest := rest - {p};
        ShownOfMore(graph, specs, callCount, result, done, p, bound);
        r := FindFrom(p, r);
        done := done + {p};
      }
      assert done == ps;
    }

    /** The body of the loop. */
    method FindFrom(p: nat, result: set<nat>) returns (r: set<nat>)
      requires Valid() && p < |graph|
      decreases p, 2
      ensures r == result + Shown(graph, specs, callCount, p)
    {
      r := result;
      if IsSatisfied(p) {
        if callCount[p] == 0 {
          r := FindUnsatisfiedPrerequisites(p, r);
        }
      } else {
        r := r + {p};
      }
    }

    constructor ()
      ensures Sound() && State() == Program([])
    {
      specs, graph, callCount, retired := [], [], [], {};
    }

    /** An EXPECT_CALL begins a new expectation, which joins the implicit sequence if there is one. */
    method AddNewExpectation(spec: Spec, implicit: Sequence?) returns (e: nat)
      requires Sound()
      requires implicit != null && implicit.last.Some? ==> implicit.last.value < |graph|
      modifies this, implicit
      ensures Sound() && e == |old(graph)|
      ensures var ps := if implicit != null && old(implicit.last).Some? then {old(implicit.last).value} else {};
              && State() == AfterExpect(old(State()), spec, ps)
              && forall deeds :: old(State()) == Program(deeds) ==> State() == Program(deeds + [Expect(spec, ps)])
      ensures implicit != null ==> implicit.last == Some(e)
    {
      e := |graph|;
      ghost var ps := if implicit != null && implicit.last.Some? then {implicit.last.value} else {};
      ExpectInProgram(State(), spec, ps);
      ExpectSound(State(), spec, {});
      specs, graph, callCount := specs + [spec], graph + [{}], callCount + [0];
      assert State() == AfterExpect(old(State()), spec, {});
      if implicit != null {
        if implicit.last.Some? {
          NewLinked(old(graph), implicit.last.value);
        }
        implicit.AddExpectation(this, e);
      }
    }

    /** A call of the mock function tries expectation `e`; matching of arguments is up to the caller. */
    method TryHandle(e: nat) returns (handled: bool)
      requires Sound() && e < |graph|
      modifies this`callCount, this`retired
      ensures Sound() && handled == old(Handles(State(), e))
      ensures State() == old(AfterCall(State(), e))
      ensures forall deeds :: old(State()) == Program(deeds) ==>
        handled == HandledByCounts(deeds, e) && State() == Program(deeds + [Call(e)])
    {
      CallInProgram(State(), e);
      if e in retired {
        return false;
      }
      var ready := AllPrerequisitesAreSatisfied(e);
      if !ready {
        return false;
      }
      CallSound(State(), e);
      if IsSaturated(e) {
        callCount := callCount[e := callCount[e] + 1];
        return true;
      }
      callCount := callCount[e := callCount[e] + 1];
      RetireAllPreRequisites(e);
      if specs[e].retiresOnSaturation && IsSaturated(e) {
        retired := retired + {e};
      }
      return true;
    }
  }

  /** Expectations that must be met in order. */
  class Sequence {
    var last: Option<nat>

    constructor ()
      ensures last == None
    {
      last := None;
    }

    /**
     Makes `e` wait for the last expectation added.  The books stay sound if that
     one is older and `e` is neither retired nor, unless it allows no call, called.
     */
    method AddExpectation(reg: Registry, e: nat)
      requires e < |reg.graph|
      modifies this, reg`graph
      ensures last == Some(e)
      ensures reg.graph == if old(last).Some? && old(last).value != e
                           then old(reg.graph)[e := old(reg.graph)[e] + {old(last).value}] else old(reg.graph)
      ensures old(reg.Sound())
              && (old(last).Some? && old(last).value != e ==> old(Extensible(reg.State(), e, last.value)))
              ==> reg.Sound()
    {
      if last != Some(e) {
        if last.Some? {
          if reg.Sound() && Extensible(reg.State(), e, last.value) {
            ExtendSound(reg.State(), e, last.value);
          }
          reg.graph := reg.graph[e := reg.graph[e] + {last.value}];
        }
        last := Some(e);
      }
    }
  }

  lemma NewLinked(g: Graph, p: nat)
    ensures (g + [{}])[|g| := (g + [{}])[|g|] + {p}] == g + [{p}]
  {
    assert {} + {p} == {p};
  }

  ghost predicate Extensible(b: Books, e: nat, p: nat)
    requires e < |b.graph|
  {
    p < e && e !in b.retired && (WellFormed(b) && b.specs[e].max > 0 ==> b.counts[e] == 0)
  }

  /** A new prerequisite of an expectation not yet in use unsettles nothing. */
  lemma ExtendSound(b: Books, e: nat, p: nat)
    requires SoundBooks(b) && e < |b.graph| && Extensible(b, e, p)
    ensures SoundBooks(b.(graph := b.graph[e := b.graph[e] + {p}]))
  {
    var b' := b.(graph := b.graph[e := b.graph[e] + {p}]);
    forall f | 0 <= f < |b.graph| && b.specs[f].max > 0 && b.counts[f] > 0 ensures PastSettled(b', f) {
      assert PastSettled(b, f);
      PriorElsewhere(b.graph, e, p, f);
    }
  }
}
