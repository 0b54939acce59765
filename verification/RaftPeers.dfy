/** Whom a node still counts among its peers, after any run. */
module RaftPeers {
  import opened Basics
  import opened RaftNode
  import opened RaftSystem
  import opened RaftShape

  /** The nodes that `n` dropped on timing out. */
  ghost function Dropped(h: seq<Event>, n: string): set<string> {
    set i | 0 <= i < |h| && h[i].Released? && h[i].node == n :: h[i].target
  }

  ghost predicate PeersExact(s: System) {
    forall n :: n in s.nodes ==> s.nodes[n].peers == s.ids - Dropped(s.history, n)
  }

  /** The peers an election was counted against were the candidate's at that moment. */
  ghost predicate CountedExact(ids: set<string>, h: seq<Event>) {
    forall i :: 0 <= i < |h| && (h[i].Won? || h[i].Lost?) ==> h[i].peers == ids - Dropped(h[..i], h[i].node)
  }

  /** What one event adds. */
  function DroppedBy(e: Event, n: string): set<string> {
    if e.Released? && e.node == n then {e.target} else {}
  }

  lemma DroppedMore(h: seq<Event>, e: Event, n: string)
    ensures Dropped(h + [e], n) == Dropped(h, n) + DroppedBy(e, n)
  {
    var h' := h + [e];
    forall t | t in Dropped(h, n) + DroppedBy(e, n) ensures t in Dropped(h', n) {
      if t in Dropped(h, n) {
        var i :| 0 <= i < |h| && h[i].Released? && h[i].node == n && h[i].target == t;
        assert h'[i] == h[i];
      } else {
        assert h'[|h|] == e;
      }
    }
  }

  ghost predicate DropEffect(s: System, e: Effect)
    requires e.actor in s.nodes
  {
    || (e.events == [] && e.node.peers == s.nodes[e.actor].peers)
    || (&& |e.events| == 1 && e.node.peers == s.nodes[e.actor].peers - DroppedBy(e.events[0], e.actor)
        && (e.events[0].Released? ==> e.events[0].node == e.actor)
        && (e.events[0].Won? || e.events[0].Lost? ==>
              e.events[0].node == e.actor && e.events[0].peers == s.nodes[e.actor].peers))
  }

  lemma StepDropEffect(s: System, step: Step)
    requires Enabled(s, step)
    ensures Known(s, EffectOf(s, step).actor) && DropEffect(s, EffectOf(s, step))
  {}

  lemma InstallPeersExact(s: System, e: Effect)
    requires e.actor in s.nodes && PeersExact(s) && DropEffect(s, e)
    ensures PeersExact(Install(s, e))
  {
    forall n | n in s.nodes
      ensures (if n == e.actor then e.node else s.nodes[n]).peers == s.ids - Dropped(s.history + e.events, n)
    {
      if e.events == [] {
        assert s.history + e.events == s.history;
      } else {
        assert e.events == [e.events[0]];
        PeersAfter(s.ids, s.nodes[n].peers, s.history, e.events[0], n);
      }
    }
  }

  lemma InstallCounted(s: System, e: Effect)
    requires e.actor in s.nodes && PeersExact(s) && CountedExact(s.ids, s.history) && DropEffect(s, e)
    ensures CountedExact(s.ids, s.history + e.events)
  {
    var h, h' := s.history, s.history + e.events;
    forall i | 0 <= i < |h'| && (h'[i].Won? || h'[i].Lost?)
      ensures h'[i].peers == s.ids - Dropped(h'[..i], h'[i].node)
    {
      if i < |h| {
        assert h'[i] == h[i] && h'[..i] == h[..i];
      } else {
        assert h'[i] == e.events[0] && h'[..i] == h;
      }
    }
  }

  lemma PeersAfter(ids: set<string>, peers: set<string>, h: seq<Event>, e: Event, n: string)
    requires peers == ids - Dropped(h, n)
    ensures peers - DroppedBy(e, n) == ids - Dropped(h + [e], n)
    ensures DroppedBy(e, n) == {} ==> peers == ids - Dropped(h + [e], n)
  {
    DroppedMore(h, e, n);
  }

  /**
   After every run a node's peers are the whole cluster less the nodes it has
   dropped, itself included if it dropped its own vote; every election was counted
   against the peers its candidate had when it ended.
   */
  lemma {:induction false} RunPeersExact(ids: set<string>, steps: seq<Step>)
    requires NOBODY !in ids
    ensures After(ids, steps).ids == ids == After(ids, steps).nodes.Keys && PeersExact(After(ids, steps))
    ensures CountedExact(ids, After(ids, steps).history)
  {
    RunShape(ids, steps);
    if steps != [] {
      var front, step := steps[..|steps| - 1], steps[|steps| - 1];
      RunPeersExact(ids, front);
      StepPeersExact(After(ids, front), step);
    }
  }

  lemma StepPeersExact(s: System, step: Step)
    requires PeersExact(s) && CountedExact(s.ids, s.history)
    ensures PeersExact(Apply(s, step)) && CountedExact(s.ids, Apply(s, step).history)
  {
    if Enabled(s, step) {
      StepDropEffect(s, step);
      InstallPeersExact(s, EffectOf(s, step));
      InstallCounted(s, EffectOf(s, step));
    }
  }
}
