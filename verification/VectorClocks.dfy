/** The vector clocks of the federation characterise causality, in every run. */
module VectorClocks {
  import opened FederationNode
  import opened FederationNetwork
  import opened ServiceRecords

  // ---------------------------------------------------------------------------------------
  // Causality, read off the run alone
  // ---------------------------------------------------------------------------------------

  /** Two steps of one node, or the creation of an event and its accepted delivery. A pull is not an edge: it brings
      records but no clock. */
  ghost predicate Edge(x: Execution, t: nat, u: nat)
    requires |x.nets| == |x.trace| + 1
  {
    && t < u < |x.trace|
    && (x.trace[t].node == x.trace[u].node
        || (x.AcceptsAt(u) && x.Emits(t) && x.trace[u].index == |x.nets[t].created|))
  }

  ghost predicate HappensBefore(x: Execution, t: nat, u: nat)
    requires |x.nets| == |x.trace| + 1
    decreases u
  {
    t == u || exists v: nat :: v < u && HappensBefore(x, t, v) && Edge(x, v, u)
  }

  ghost predicate ClockLeq(a: Clock, b: Clock) {
    forall id :: At(a, id) <= At(b, id)
  }

  // ---------------------------------------------------------------------------------------
  // Invariants of the clocks
  // ---------------------------------------------------------------------------------------

  /** Nobody counts more events of a node than the node itself. */
  ghost predicate ClocksBounded(x: Execution, t: nat)
    requires t < |x.nets|
  {
    && (forall i, j :: At(x.ClockOf(t, i), j) <= At(x.ClockOf(t, j), j))
    && (forall k, j :: 0 <= k < |x.nets[t].created| ==> At(x.nets[t].created[k].clock, j) <= At(x.ClockOf(t, j), j))
  }

  lemma {:induction false} AtMerged(a: Clock, b: Clock, id: NodeId)
    ensures At(MergedClock(a, b), id) == Max(At(a, id), At(b, id))
  {
  }

  /** A step moves at most its own node's clock, and never back. */
  lemma {:induction false} ClockStep(x: Execution, t: nat, i: NodeId, j: NodeId)
    requires x.Valid() && t < |x.trace|
    ensures At(x.ClockOf(t, i), j) <= At(x.ClockOf(t + 1, i), j)
    ensures i != x.trace[t].node ==> x.ClockOf(t + 1, i) == x.ClockOf(t, i)
    ensures x.Emits(t) && i == x.trace[t].node ==>
      At(x.ClockOf(t + 1, i), j) == At(x.ClockOf(t, i), j) + if i == j then 1 else 0
  {
    if i != x.trace[t].node {
      x.OtherNodesRest(t, i);
    } else if x.Emits(t) {
      x.EmittingStep(t);
    } else {
      x.SilentStep(t);
      if x.AcceptsAt(t) {
        AtMerged(x.ClockOf(t, i), x.nets[t].created[x.trace[t].index].clock, j);
      }
    }
  }

  lemma {:induction false} ClocksStayBounded(x: Execution, t: nat)
    requires x.Valid() && t <= |x.trace|
    ensures ClocksBounded(x, t)
  {
    if t > 0 {
      ClocksStayBounded(x, t - 1);
      forall i, j
        ensures At(x.ClockOf(t, i), j) <= At(x.ClockOf(t, j), j)
      {
        StepKeepsBound(x, t - 1, i, j);
      }
      forall k, j | 0 <= k < |x.nets[t].created|
        ensures At(x.nets[t].created[k].clock, j) <= At(x.ClockOf(t, j), j)
      {
        StepKeepsEventBound(x, t - 1, k, j);
      }
    }
  }

  lemma {:induction false} StepKeepsBound(x: Execution, t: nat, i: NodeId, j: NodeId)
    requires x.Valid() && t < |x.trace| && ClocksBounded(x, t)
    ensures At(x.ClockOf(t + 1, i), j) <= At(x.ClockOf(t + 1, j), j)
  {
    ClockStep(x, t, i, j);
    ClockStep(x, t, j, j);
    if i == x.trace[t].node && !x.Emits(t) {
      x.SilentStep(t);
      if x.AcceptsAt(t) {
        AtMerged(x.ClockOf(t, i), x.nets[t].created[x.trace[t].index].clock, j);
      }
    }
  }

  lemma {:induction false} StepKeepsEventBound(x: Execution, t: nat, k: nat, j: NodeId)
    requires x.Valid() && t < |x.trace| && ClocksBounded(x, t) && k < |x.nets[t + 1].created|
    ensures At(x.nets[t + 1].created[k].clock, j) <= At(x.ClockOf(t + 1, j), j)
  {
    ClockStep(x, t, j, j);
    x.StepEffect(t);
    if k == |x.nets[t].created| {
      x.EmittingStep(t);
      StepKeepsBound(x, t, x.trace[t].node, j);
    }
  }

  lemma {:induction false} ClocksNeverGoBack(x: Execution, t: nat, u: nat, i: NodeId, j: NodeId)
    requires x.Valid() && t <= u <= |x.trace|
    ensures At(x.ClockOf(t, i), j) <= At(x.ClockOf(u, i), j)
    decreases u
  {
    if t < u {
      ClocksNeverGoBack(x, t, u - 1, i, j);
      ClockStep(x, u - 1, i, j);
    }
  }

  ghost function CountBy(events: seq<FederationEvent>, source: NodeId): nat {
    if events == [] then 0
    else CountBy(events[..|events| - 1], source) + if events[|events| - 1].source == source then 1 else 0
  }

  /** A node's own entry is the number of events it has created. */
  lemma {:induction false} OwnEntryCountsEvents(x: Execution, t: nat, j: NodeId)
    requires x.Valid() && t <= |x.trace|
    ensures At(x.ClockOf(t, j), j) == CountBy(x.nets[t].created, j)
  {
    if t > 0 {
      OwnEntryCountsEvents(x, t - 1, j);
      ClockStep(x, t - 1, j, j);
      x.StepEffect(t - 1);
      if x.Emits(t - 1) {
        x.EmittingStep(t - 1);
        assert x.nets[t].created[..|x.nets[t].created| - 1] == x.nets[t - 1].created;
      } else {
        x.SilentStep(t - 1);
        if x.AcceptsAt(t - 1) && x.trace[t - 1].node == j {
          AtMerged(x.ClockOf(t - 1, j), x.nets[t - 1].created[x.trace[t - 1].index].clock, j);
          ClocksStayBounded(x, t - 1);
        }
      }
    }
  }

  // ---------------------------------------------------------------------------------------
  // What is in the causal past is in the clock
  // ---------------------------------------------------------------------------------------

  /** The clock of the node that takes step t, once it has taken it. */
  ghost function ClockAfter(x: Execution, t: nat): Clock
    requires |x.nets| == |x.trace| + 1 && t < |x.trace|
  {
    x.ClockOf(t + 1, x.trace[t].node)
  }

  lemma {:induction false} EdgeRaisesClock(x: Execution, t: nat, u: nat, id: NodeId)
    requires x.Valid() && Edge(x, t, u)
    ensures At(ClockAfter(x, t), id) <= At(ClockAfter(x, u), id)
  {
    if x.trace[t].node == x.trace[u].node {
      ClocksNeverGoBack(x, t + 1, u + 1, x.trace[t].node, id);
    } else {
      x.EmittingStep(t);
      x.CreatedGrows(t + 1, u);
      assert x.nets[u].created[x.trace[u].index] == x.EventAt(t);
      if x.Emits(u) {
        x.EmittingStep(u);
      }
      x.SilentStep(u);
      AtMerged(x.ClockOf(u, x.trace[u].node), x.EventAt(t).clock, id);
    }
  }

  lemma {:induction false} PastIsInClock(x: Execution, t: nat, u: nat, id: NodeId)
    requires x.Valid() && t < |x.trace| && u < |x.trace| && HappensBefore(x, t, u)
    ensures At(ClockAfter(x, t), id) <= At(ClockAfter(x, u), id)
    decreases u
  {
    if t != u {
      var v: nat :| v < u && HappensBefore(x, t, v) && Edge(x, v, u);
      PastIsInClock(x, t, v, id);
      EdgeRaisesClock(x, v, u, id);
    }
  }

  // ---------------------------------------------------------------------------------------
  // What is in the clock is in the causal past
  // ---------------------------------------------------------------------------------------

  /** The number of its creator's events when step t had created its event. */
  ghost function Own(x: Execution, t: nat): nat
    requires x.Valid() && x.Emits(t)
  {
    At(ClockAfter(x, t), x.trace[t].node)
  }

  /** No clock counts an event before it is created. */
  lemma {:induction false} NotCountedBefore(x: Execution, t: nat, u: nat, i: NodeId)
    requires x.Valid() && x.Emits(t) && u <= t
    ensures At(x.ClockOf(u, i), x.trace[t].node) < Own(x, t)
  {
    var j := x.trace[t].node;
    ClocksStayBounded(x, u);
    ClocksNeverGoBack(x, u, t, j, j);
    ClockStep(x, t, j, j);
  }

  lemma {:induction false} SameNodeExtends(x: Execution, t: nat, v: nat, u: nat)
    requires |x.nets| == |x.trace| + 1 && v < u < |x.trace|
    requires HappensBefore(x, t, v) && x.trace[v].node == x.trace[u].node
    ensures HappensBefore(x, t, u)
  {
    assert Edge(x, v, u);
  }

  /** The step that created event k. */
  lemma {:induction false} CreatingStep(x: Execution, u: nat, k: nat) returns (w: nat)
    requires x.Valid() && u <= |x.trace| && k < |x.nets[u].created|
    ensures w < u && x.Emits(w) && |x.nets[w].created| == k
    ensures x.EventAt(w) == x.nets[u].created[k]
    decreases u
  {
    assert u > 0;
    x.StepEffect(u - 1);
    if k < |x.nets[u - 1].created| {
      w := CreatingStep(x, u - 1, k);
    } else {
      w := u - 1;
    }
  }

  /** A node whose clock counts the event created at step t has a step that the event happened before. */
  lemma {:induction false} CountedIsPast(x: Execution, t: nat, u: nat, i: NodeId) returns (v: nat)
    requires x.Valid() && x.Emits(t) && u <= |x.trace|
    requires At(x.ClockOf(u, i), x.trace[t].node) >= Own(x, t)
    ensures v < u && x.trace[v].node == i && HappensBefore(x, t, v)
    decreases u
  {
    if u <= t {
      NotCountedBefore(x, t, u, i);
      assert false;
    }
    var s, j := u - 1, x.trace[t].node;
    if At(x.ClockOf(s, i), j) >= Own(x, t) {
      v := CountedIsPast(x, t, s, i);
    } else {
      ClockStep(x, s, i, j);
      v := s;
      if s != t {
        NewlyCounted(x, t, s, i);
        var w := CreatingStep(x, s, x.trace[s].index);
        x.EmittingStep(w);
        var past := CountedIsPast(x, t, w + 1, x.trace[w].node);
        if past != w {
          SameNodeExtends(x, t, past, w);
        }
        assert Edge(x, w, s);
      }
    }
  }

  /** Apart from its creator, a node starts to count an event only by accepting a delivery whose clock
      counts it. */
  lemma {:induction false} NewlyCounted(x: Execution, t: nat, s: nat, i: NodeId)
    requires x.Valid() && x.Emits(t) && t < s < |x.trace| && i == x.trace[s].node
    requires At(x.ClockOf(s, i), x.trace[t].node) < Own(x, t) <= At(x.ClockOf(s + 1, i), x.trace[t].node)
    ensures x.AcceptsAt(s) && !x.Emits(s)
    ensures At(x.nets[s].created[x.trace[s].index].clock, x.trace[t].node) >= Own(x, t)
  {
    var j := x.trace[t].node;
    ClockStep(x, s, i, j);
    if i == j {
      ClocksNeverGoBack(x, t + 1, s, j, j);
      assert false;
    }
    x.SilentStep(s);
    AtMerged(x.ClockOf(s, i), x.nets[s].created[x.trace[s].index].clock, j);
  }

  // ---------------------------------------------------------------------------------------
  // The theorem
  // ---------------------------------------------------------------------------------------

  /** For the events that steps t and u create: one clock is below the other, entry by entry, exactly
      if the first event is in the causal past of the second or is the second. */
  lemma {:induction false} ClocksCharacteriseCausality(x: Execution, t: nat, u: nat)
    requires x.Valid() && x.Emits(t) && x.Emits(u)
    ensures ClockLeq(x.EventAt(t).clock, x.EventAt(u).clock) <==> HappensBefore(x, t, u)
  {
    x.EmittingStep(t);
    x.EmittingStep(u);
    if HappensBefore(x, t, u) {
      forall id
        ensures At(x.EventAt(t).clock, id) <= At(x.EventAt(u).clock, id)
      {
        PastIsInClock(x, t, u, id);
      }
    }
    if ClockLeq(x.EventAt(t).clock, x.EventAt(u).clock) {
      var j := x.trace[t].node;
      assert At(x.EventAt(t).clock, j) <= At(x.EventAt(u).clock, j);
      var v := CountedIsPast(x, t, u + 1, x.trace[u].node);
      if v != u {
        SameNodeExtends(x, t, v, u);
      }
    }
  }

  /** Different events never carry equal clocks. */
  lemma {:induction false} ClocksAreUnique(x: Execution, t: nat, u: nat)
    requires x.Valid() && x.Emits(t) && x.Emits(u)
    ensures (forall id :: At(x.EventAt(t).clock, id) == At(x.EventAt(u).clock, id)) <==> t == u
  {
    if forall id :: At(x.EventAt(t).clock, id) == At(x.EventAt(u).clock, id) {
      ClocksCharacteriseCausality(x, t, u);
      ClocksCharacteriseCausality(x, u, t);
      PastIsEarlier(x, t, u);
      PastIsEarlier(x, u, t);
    }
  }

  lemma {:induction false} PastIsEarlier(x: Execution, t: nat, u: nat)
    requires |x.nets| == |x.trace| + 1 && HappensBefore(x, t, u)
    ensures t <= u
    decreases u
  {
    if t != u {
      var v: nat :| v < u && HappensBefore(x, t, v) && Edge(x, v, u);
      PastIsEarlier(x, t, v);
    }
  }

  // ---------------------------------------------------------------------------------------
  // Pulls
  // ---------------------------------------------------------------------------------------

  /** The event of a pull counts one more event of the puller and nothing else: whatever records it brought, it
      raises no entry of the node they came from. */
  lemma {:induction false} PullsMoveNoClock(x: Execution, t: nat, j: NodeId)
    requires x.Valid() && x.Emits(t) && x.trace[t].SyncWith?
    ensures At(x.EventAt(t).clock, j)
      == At(x.ClockOf(t, x.trace[t].node), j) + if j == x.trace[t].node then 1 else 0
  {
    x.EmittingStep(t);
  }

  /** A pull puts an event of another node into the causal past exactly if it was there before the pull. */
  lemma {:induction false} PullsAddNoPast(x: Execution, t: nat, u: nat)
    requires x.Valid() && x.Emits(t) && x.Emits(u)
    requires x.trace[u].SyncWith? && x.trace[t].node != x.trace[u].node
    ensures ClockLeq(x.EventAt(t).clock, x.EventAt(u).clock)
      <==> t < u && ClockLeq(x.EventAt(t).clock, x.ClockOf(u, x.trace[u].node))
  {
    var b := x.trace[u].node;
    forall j {
      PullsMoveNoClock(x, u, j);
    }
    if ClockLeq(x.EventAt(t).clock, x.EventAt(u).clock) {
      ClocksCharacteriseCausality(x, t, u);
      PastIsEarlier(x, t, u);
      x.EmittingStep(t);
      ClocksStayBounded(x, t + 1);
      ClocksNeverGoBack(x, t + 1, u, b, b);
      assert At(x.EventAt(t).clock, b) <= At(x.ClockOf(u, b), b);
      forall j
        ensures At(x.EventAt(t).clock, j) <= At(x.ClockOf(u, b), j)
      {
        assert At(x.EventAt(t).clock, j) <= At(x.EventAt(u).clock, j);
      }
    }
  }

  function TwoNodes(a: NodeId, b: NodeId): Net {
    Net(map[a := NodeState(a, {}, map[a := 0], [], map[]), b := NodeState(b, {}, map[b := 0], [], map[])], [])
  }

  /** One node registers a record, the other connects to it and pulls. */
  function PullSteps(a: NodeId, b: NodeId, record: ServiceRecord): seq<Step> {
    [Register(a, record, "1"), Connect(b, a), SyncWith(b, a, "2")]
  }

  lemma {:induction false} RegisterFirst(maxSeen: nat, a: NodeId, b: NodeId, record: ServiceRecord, nonce: string)
    requires a != b
    ensures
      var after := Apply(maxSeen, TwoNodes(a, b), Register(a, record, nonce));
      && a in after.nodes && b in after.nodes
      && after.nodes[a].services == map[record.serviceId := record]
      && after.nodes[b] == TwoNodes(a, b).nodes[b]
      && |after.created| == 1
      && after.created[0].payload == Registered(record) && At(after.created[0].clock, a) == 1
  {
  }

  lemma {:induction false} ThenConnect(maxSeen: nat, net: Net, a: NodeId, b: NodeId)
    requires a != b && a in net.nodes && b in net.nodes
    ensures
      var after := Apply(maxSeen, net, Connect(b, a));
      && a in after.nodes && b in after.nodes && after.nodes[a] == net.nodes[a] && after.created == net.created
      && a in after.nodes[b].peers && after.nodes[b].services == net.nodes[b].services
      && At(after.nodes[b].clock, a) == At(net.nodes[b].clock, a)
  {
  }

  lemma {:induction false} ThenPull(maxSeen: nat, net: Net, a: NodeId, b: NodeId, nonce: string)
    requires a != b && a in net.nodes && b in net.nodes && a in net.nodes[b].peers
    requires net.nodes[b].services == map[]
    ensures
      var after := Apply(maxSeen, net, SyncWith(b, a, nonce));
      b in after.nodes && after.nodes[b].services == net.nodes[a].services
      && |after.created| == |net.created| + 1
  {
    var step := SyncWith(b, a, nonce);
    SyncedIntoEmpty(net.nodes[a].services);
    assert EffectOf(maxSeen, net, step).state.services == net.nodes[a].services;
    ActingNode(maxSeen, net, step);
  }

  lemma {:induction false} SyncedIntoEmpty(services: Services)
    ensures Synced(map[], services) == services
  {
  }

  /** The witness: a puller's event need not be above the registration whose record it has just pulled. The clocks
      order events, not knowledge. */
  lemma {:induction false} PulledRecordIsNotInClock(maxSeen: nat, a: NodeId, b: NodeId, record: ServiceRecord)
    requires a != b
    ensures
      var x := Run(maxSeen, TwoNodes(a, b), PullSteps(a, b, record));
      && x.Emits(0) && x.Emits(2) && b in x.nets[3].nodes
      && x.EventAt(0).payload == Registered(record)
      && x.nets[3].nodes[b].services == map[record.serviceId := record]
      && !ClockLeq(x.EventAt(0).clock, x.EventAt(2).clock)
  {
    var trace := PullSteps(a, b, record);
    var x := Run(maxSeen, TwoNodes(a, b), trace);
    assert |x.nets| == 4 && x.Follows(0) && x.Follows(1) && x.Follows(2);
    RegisterFirst(maxSeen, a, b, record, "1");
    ThenConnect(maxSeen, x.nets[1], a, b);
    ThenPull(maxSeen, x.nets[2], a, b, "2");
    PullsMoveNoClock(x, 2, a);
    assert At(x.EventAt(0).clock, a) == 1 && At(x.EventAt(2).clock, a) == 0;
  }
}
