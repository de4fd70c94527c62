/** What the service maps of a federation converge to. */
module Convergence {
  import opened DeliveryOrders
  import opened ServiceRecords
  import opened FederationNode
  import opened FederationNetwork

  type Knowledge = map<NodeId, set<ServiceRecord>>

  // ---------------------------------------------------------------------------------------
  // The records that have reached a node
  // ---------------------------------------------------------------------------------------

  /** A registration that takes effect, an accepted registration event and a pull each carry records to
      the node of the step. */
  ghost function Learnt(net: Net, step: Step, known: Knowledge): set<ServiceRecord>
    requires step.node in net.nodes && known.Keys == net.nodes.Keys
  {
    match step
    case Connect(_, _) => {}
    case Disconnect(_, _) => {}
    case Register(_, record, _) =>
      if AlreadyRegistered(net.nodes[step.node].services, record) then {} else {record}
    case Revoke(_, _, _) => {}
    case SyncWith(_, peer, _) =>
      if peer in net.nodes[step.node].peers && peer in known then known[peer] else {}
    case Deliver(_, index) =>
      if AcceptedDelivery(net, step) && net.created[index].payload.Registered? then
        {net.created[index].payload.record}
      else {}
  }

  ghost function Reached(x: Execution, t: nat): (known: Knowledge)
    requires x.Valid() && t <= |x.trace|
    ensures known.Keys == x.nets[t].nodes.Keys
  {
    x.NodesKeepTheirIds(t);
    if t == 0 then map id | id in x.nets[0].nodes :: x.nets[0].nodes[id].services.Values
    else
      x.NodesKeepTheirIds(t - 1);
      var known, step := Reached(x, t - 1), x.trace[t - 1];
      if step.node !in known then known
      else known[step.node := known[step.node] + Learnt(x.nets[t - 1], step, known)]
  }

  // ---------------------------------------------------------------------------------------
  // Runs that only merge
  // ---------------------------------------------------------------------------------------

  /** The step revokes nothing, and does not register over a record that wins against its own. */
  ghost predicate NoDowngrade(net: Net, step: Step) {
    && !step.Revoke?
    && (step.Register? && step.node in net.nodes && step.record.serviceId in net.nodes[step.node].services ==>
          var present := net.nodes[step.node].services[step.record.serviceId];
          present.version == step.record.version || Wins(step.record, present))
  }

  ghost predicate MergesOnly(x: Execution) {
    x.Valid() && forall t :: 0 <= t < |x.trace| ==> NoDowngrade(x.nets[t], x.trace[t])
  }

  /** A registration keeps the services a join exactly if it does not replace a better record. */
  lemma {:induction false} RegistrationKeepsJoinExactly(
      services: Services, records: set<ServiceRecord>, record: ServiceRecord)
    requires IsJoin(services, records)
    ensures IsJoin(services[record.serviceId := record], records + {record}) <==>
      (record.serviceId in services ==> Wins(record, services[record.serviceId]))
  {
    var id, after := record.serviceId, services[record.serviceId := record];
    if id in services ==> Wins(record, services[id]) {
      forall r | r in records + {record}
        ensures r.serviceId in after && Wins(after[r.serviceId], r)
      {
        if r != record && r.serviceId == id {
          WinsIsTransitive(record, services[id], r);
        }
      }
    } else {
      assert services[id] in records && after[id] == record;
    }
  }

  ghost predicate NoRemovals(net: Net) {
    forall e :: e in net.created ==> !e.payload.Removed?
  }

  lemma {:induction false} StepCreates(maxSeen: nat, net: Net, step: Step)
    requires NoRemovals(net) && !step.Revoke?
    ensures NoRemovals(Apply(maxSeen, net, step))
  {
    var net' := Apply(maxSeen, net, step);
    if net'.created != net.created {
      forall e | e in net'.created
        ensures !e.payload.Removed?
      {
        if e !in net.created {
          assert e.payload == EffectOf(maxSeen, net, step).emitted.value;
        }
      }
    }
  }

  lemma {:induction false} NothingRemoved(x: Execution, t: nat)
    requires MergesOnly(x) && t <= |x.trace|
    ensures NoRemovals(x.nets[t])
  {
    if t > 0 {
      NothingRemoved(x, t - 1);
      assert x.Follows(t - 1) && NoDowngrade(x.nets[t - 1], x.trace[t - 1]);
      StepCreates(x.maxSeen, x.nets[t - 1], x.trace[t - 1]);
    }
  }

  lemma {:induction false} RegistrationHoldsDominants(
      services: Services, seen: set<ServiceRecord>, all: set<ServiceRecord>, record: ServiceRecord)
    requires HoldsDominants(services, seen, all) && seen <= all && record in all
    requires record.serviceId in services ==> Wins(record, services[record.serviceId])
    ensures HoldsDominants(services[record.serviceId := record], seen + {record}, all)
  {
    forall d | d in seen && Dominates(d, all) && d.serviceId == record.serviceId
      ensures d == record
    {
      PreferredIsAsymmetric(d, record);
    }
  }

  /** A step of a run that only merges keeps the dominant records, if the peer it may pull from holds its own. */
  lemma {:induction false} StepHoldsDominants(
      maxSeen: nat, net: Net, step: Step, known: Knowledge, all: set<ServiceRecord>)
    requires step.node in net.nodes && known.Keys == net.nodes.Keys && NoDowngrade(net, step) && NoRemovals(net)
    requires known[step.node] + Learnt(net, step, known) <= all
    requires HoldsDominants(net.nodes[step.node].services, known[step.node], all)
    requires step.SyncWith? && step.peer in net.nodes[step.node].peers && step.peer in known ==>
      HoldsDominants(net.nodes[step.peer].services, known[step.peer], all)
    ensures HoldsDominants(
      EffectOf(maxSeen, net, step).state.services, known[step.node] + Learnt(net, step, known), all)
  {
    var s, seen, learnt := net.nodes[step.node], known[step.node], Learnt(net, step, known);
    if learnt == {} {
      assert seen + learnt == seen;
    }
    match step
    case Connect(_, _) =>
    case Disconnect(_, _) =>
    case Register(_, record, _) =>
      if !AlreadyRegistered(s.services, record) {
        assert record in learnt;
        RegistrationHoldsDominants(s.services, seen, all, record);
      }
    case Revoke(_, _, _) =>
    case SyncWith(_, peer, _) =>
      if peer in s.peers && peer in known {
        assert known[peer] <= all;
        SyncHoldsDominants(s.services, seen, net.nodes[peer].services, known[peer], all);
      }
    case Deliver(_, index) =>
      if AcceptedDelivery(net, step) {
        assert net.created[index] in net.created;
        if net.created[index].payload.Registered? {
          assert net.created[index].payload.record in learnt;
          MergeHoldsDominants(s.services, seen, all, net.created[index].payload.record);
        }
      }
  }

  lemma {:induction false} ReachedStep(x: Execution, t: nat, id: NodeId)
    requires x.Valid() && 0 < t <= |x.trace| && id in Reached(x, t)
    ensures id in Reached(x, t - 1) && id in x.nets[t - 1].nodes && id in x.nets[t].nodes
    ensures Reached(x, t)[id] == Reached(x, t - 1)[id]
      + if id == x.trace[t - 1].node then Learnt(x.nets[t - 1], x.trace[t - 1], Reached(x, t - 1)) else {}
  {
    x.NodesKeepTheirIds(t - 1);
    x.NodesKeepTheirIds(t);
  }

  /** In every run that only merges, a node has one record for each service that reached it, and each dominant
      record that did. What else happens elsewhere is irrelevant. */
  lemma {:induction false} ServicesHoldDominants(x: Execution, t: nat, i: NodeId, all: set<ServiceRecord>)
    requires MergesOnly(x) && t <= |x.trace| && i in Reached(x, t) && Reached(x, t)[i] <= all
    ensures i in x.nets[t].nodes && HoldsDominants(x.nets[t].nodes[i].services, Reached(x, t)[i], all)
    decreases t
  {
    if t == 0 {
      OwnDominants(x.nets[0].nodes[i].services, all);
    } else {
      ReachedStep(x, t, i);
      ServicesHoldDominants(x, t - 1, i, all);
      if i == x.trace[t - 1].node {
        PeerHoldsDominants(x, t, all);
        ActingHoldsDominants(x, t, all);
      } else {
        x.OtherNodesRest(t - 1, i);
      }
    }
  }

  lemma {:induction false} PeerHoldsDominants(x: Execution, t: nat, all: set<ServiceRecord>)
    requires MergesOnly(x) && 0 < t <= |x.trace| && x.trace[t - 1].node in Reached(x, t)
    requires Reached(x, t)[x.trace[t - 1].node] <= all
    ensures
      var net, step, known := x.nets[t - 1], x.trace[t - 1], Reached(x, t - 1);
      step.node in net.nodes && (step.SyncWith? && step.peer in net.nodes[step.node].peers && step.peer in known ==>
        step.peer in net.nodes && HoldsDominants(net.nodes[step.peer].services, known[step.peer], all))
    decreases t, 0
  {
    var net, step, known := x.nets[t - 1], x.trace[t - 1], Reached(x, t - 1);
    ReachedStep(x, t, step.node);
    if step.SyncWith? && step.peer in net.nodes[step.node].peers && step.peer in known {
      assert Learnt(net, step, known) == known[step.peer];
      ServicesHoldDominants(x, t - 1, step.peer, all);
    }
  }

  lemma {:induction false} ActingHoldsDominants(x: Execution, t: nat, all: set<ServiceRecord>)
    requires MergesOnly(x) && 0 < t <= |x.trace| && x.trace[t - 1].node in Reached(x, t)
    requires Reached(x, t)[x.trace[t - 1].node] <= all
    requires
      var net, step, known := x.nets[t - 1], x.trace[t - 1], Reached(x, t - 1);
      && step.node in net.nodes && step.node in known
      && HoldsDominants(net.nodes[step.node].services, known[step.node], all)
      && (step.SyncWith? && step.peer in net.nodes[step.node].peers && step.peer in known ==>
        step.peer in net.nodes && HoldsDominants(net.nodes[step.peer].services, known[step.peer], all))
    ensures
      var i := x.trace[t - 1].node;
      i in x.nets[t].nodes && HoldsDominants(x.nets[t].nodes[i].services, Reached(x, t)[i], all)
  {
    var net, step, known := x.nets[t - 1], x.trace[t - 1], Reached(x, t - 1);
    ReachedStep(x, t, step.node);
    assert x.Follows(t - 1) && NoDowngrade(net, step);
    NothingRemoved(x, t - 1);
    StepHoldsDominants(x.maxSeen, net, step, known, all);
    ActingNode(x.maxSeen, net, step);
  }

  /** If each service that reached a node has a dominant record, the node holds the join of exactly the records that
      reached it. */
  lemma {:induction false} ServicesAreJoins(x: Execution, t: nat, i: NodeId)
    requires MergesOnly(x) && t <= |x.trace| && i in Reached(x, t) && AllHaveDominants(Reached(x, t)[i])
    ensures i in x.nets[t].nodes && IsJoin(x.nets[t].nodes[i].services, Reached(x, t)[i])
  {
    ServicesHoldDominants(x, t, i, Reached(x, t)[i]);
    DominantsAreJoin(x.nets[t].nodes[i].services, Reached(x, t)[i]);
  }

  /** Two nodes, in one run or in two, that the same records have reached hold the same services. */
  lemma {:induction false} SameRecordsSameServices(x: Execution, t: nat, i: NodeId, y: Execution, u: nat, j: NodeId)
    requires MergesOnly(x) && t <= |x.trace| && i in Reached(x, t)
    requires MergesOnly(y) && u <= |y.trace| && j in Reached(y, u)
    requires Reached(x, t)[i] == Reached(y, u)[j] && AllHaveDominants(Reached(x, t)[i])
    ensures x.nets[t].nodes[i].services == y.nets[u].nodes[j].services
  {
    ServicesAreJoins(x, t, i);
    ServicesAreJoins(y, u, j);
    JoinIsUnique(x.nets[t].nodes[i].services, y.nets[u].nodes[j].services, Reached(x, t)[i]);
  }

  // ---------------------------------------------------------------------------------------
  // Event delivery
  // ---------------------------------------------------------------------------------------

  /** The records in the registration events that a node has accepted. */
  ghost function Delivered(x: Execution, t: nat, i: NodeId): set<ServiceRecord>
    requires x.Valid() && t <= |x.trace|
  {
    if t == 0 then {}
    else if LearnsAt(x, t - 1, i) then
      Delivered(x, t - 1, i) + {x.nets[t - 1].created[x.trace[t - 1].index].payload.record}
    else Delivered(x, t - 1, i)
  }

  /** All that the node does up to t is to receive events and to change its peers. */
  ghost predicate OnlyReceives(x: Execution, t: nat, i: NodeId) {
    t <= |x.trace| && forall s :: 0 <= s < t && x.trace[s].node == i ==>
      x.trace[s].Deliver? || x.trace[s].Connect? || x.trace[s].Disconnect?
  }

  /** It accepts no removal. */
  ghost predicate NoRemovalAccepted(x: Execution, t: nat, i: NodeId)
    requires x.Valid() && t <= |x.trace|
  {
    forall s :: 0 <= s < t && x.trace[s].node == i && x.AcceptsAt(s) ==>
      !x.nets[s].created[x.trace[s].index].payload.Removed?
  }

  ghost predicate Receiver(x: Execution, t: nat, i: NodeId) {
    x.Valid() && OnlyReceives(x, t, i) && NoRemovalAccepted(x, t, i) && i in x.nets[0].nodes
  }

  /** The records a receiver starts with and those in the registrations it accepts. */
  ghost function Seen(x: Execution, t: nat, i: NodeId): set<ServiceRecord>
    requires x.Valid() && t <= |x.trace| && i in x.nets[0].nodes
  {
    x.nets[0].nodes[i].services.Values + Delivered(x, t, i)
  }

  /** The node accepts a registration at step t. */
  ghost predicate LearnsAt(x: Execution, t: nat, i: NodeId)
    requires x.Valid() && t < |x.trace|
  {
    x.trace[t].node == i && x.AcceptsAt(t) && x.nets[t].created[x.trace[t].index].payload.Registered?
  }

  lemma {:induction false} ReceiverServices(x: Execution, t: nat, i: NodeId)
    requires t > 0 && Receiver(x, t, i) && i in x.nets[t - 1].nodes
    ensures i in x.nets[t].nodes
    ensures
      var before, after := x.nets[t - 1].nodes[i].services, x.nets[t].nodes[i].services;
      if LearnsAt(x, t - 1, i) then
        var record := x.nets[t - 1].created[x.trace[t - 1].index].payload.record;
        after == Merge(before, record) && Seen(x, t, i) == Seen(x, t - 1, i) + {record}
      else after == before && Seen(x, t, i) == Seen(x, t - 1, i)
  {
    var net, step := x.nets[t - 1], x.trace[t - 1];
    assert x.Follows(t - 1);
    if step.node != i {
      x.OtherNodesRest(t - 1, i);
    } else {
      ActingNode(x.maxSeen, net, step);
    }
  }

  lemma {:induction false} ReceivingStep(x: Execution, t: nat, i: NodeId, all: set<ServiceRecord>)
    requires t > 0 && Receiver(x, t, i) && i in x.nets[t - 1].nodes && Seen(x, t, i) <= all
    requires HoldsDominants(x.nets[t - 1].nodes[i].services, Seen(x, t - 1, i), all)
    ensures i in x.nets[t].nodes
    ensures HoldsDominants(x.nets[t].nodes[i].services, Seen(x, t, i), all)
  {
    ReceiverServices(x, t, i);
    if LearnsAt(x, t - 1, i) {
      var record := x.nets[t - 1].created[x.trace[t - 1].index].payload.record;
      assert record in Seen(x, t, i);
      MergeHoldsDominants(x.nets[t - 1].nodes[i].services, Seen(x, t - 1, i), all, record);
    }
  }

  lemma {:induction false} ReceiverEarlier(x: Execution, t: nat, i: NodeId)
    requires t > 0 && Receiver(x, t, i)
    ensures Receiver(x, t - 1, i) && Seen(x, t - 1, i) <= Seen(x, t, i)
  {
  }

  lemma {:induction false} ReceiverStarts(x: Execution, i: NodeId, all: set<ServiceRecord>)
    requires Receiver(x, 0, i)
    ensures i in x.nets[0].nodes && HoldsDominants(x.nets[0].nodes[i].services, Seen(x, 0, i), all)
  {
    OwnDominants(x.nets[0].nodes[i].services, all);
    assert Seen(x, 0, i) == x.nets[0].nodes[i].services.Values;
  }

  /** What other nodes do, and what never arrives, is irrelevant to a receiver. */
  lemma {:induction false} ReceiverHoldsDominants(x: Execution, t: nat, i: NodeId, all: set<ServiceRecord>)
    requires Receiver(x, t, i) && Seen(x, t, i) <= all
    ensures i in x.nets[t].nodes && HoldsDominants(x.nets[t].nodes[i].services, Seen(x, t, i), all)
    decreases t
  {
    if t > 0 {
      ReceiverEarlier(x, t, i);
      ReceiverHoldsDominants(x, t - 1, i, all);
      ReceivingStep(x, t, i, all);
    } else {
      ReceiverStarts(x, i, all);
    }
  }

  /** Nodes that start with equal registries and accept the same registrations, in any orders and with any
      repetitions, end with equal registries, if each service among these records has a dominant one. Records with
      distinct timestamps always do. */
  lemma {:induction false} DeliveryOrderIsIrrelevant(x: Execution, t: nat, i: NodeId, y: Execution, u: nat, j: NodeId)
    requires Receiver(x, t, i) && Receiver(y, u, j)
    requires x.nets[0].nodes[i].services == y.nets[0].nodes[j].services
    requires Delivered(x, t, i) == Delivered(y, u, j)
    requires AllHaveDominants(Seen(x, t, i)) || Coherent(Seen(x, t, i))
    ensures i in x.nets[t].nodes && j in y.nets[u].nodes
    ensures x.nets[t].nodes[i].services == y.nets[u].nodes[j].services
  {
    var all := Seen(x, t, i);
    if Coherent(all) {
      CoherentHasDominants(all);
    }
    ReceiverHoldsDominants(x, t, i, all);
    ReceiverHoldsDominants(y, u, j, all);
    SameDominantMaps(x.nets[t].nodes[i].services, y.nets[u].nodes[j].services, all);
  }

  // ---------------------------------------------------------------------------------------
  // Anti-entropy
  // ---------------------------------------------------------------------------------------

  ghost predicate OnlySyncs(x: Execution) {
    x.Valid() && forall t :: 0 <= t < |x.trace| ==> x.trace[t].SyncWith?
  }

  /** Step t is a pull by node i from one of its peers. */
  ghost predicate Pulls(x: Execution, t: nat, i: NodeId)
    requires t < |x.trace| && t < |x.nets|
  {
    && x.trace[t].SyncWith? && x.trace[t].node == i && i in x.nets[t].nodes
    && x.trace[t].peer in x.nets[t].nodes[i].peers && x.trace[t].peer in x.nets[t].nodes
  }

  /** The nodes whose initial state has reached a node through pulls. */
  ghost function Heard(x: Execution, t: nat, i: NodeId): set<NodeId>
    requires x.Valid() && t <= |x.trace|
    decreases t
  {
    if t == 0 then {i}
    else Heard(x, t - 1, i) + if Pulls(x, t - 1, i) then Heard(x, t - 1, x.trace[t - 1].peer) else {}
  }

  ghost function RecordsOf(net: Net, ids: set<NodeId>): set<ServiceRecord> {
    set id, r | id in ids && id in net.nodes && r in net.nodes[id].services.Values :: r
  }

  lemma {:induction false} RecordsOfUnion(net: Net, a: set<NodeId>, b: set<NodeId>)
    ensures RecordsOf(net, a + b) == RecordsOf(net, a) + RecordsOf(net, b)
  {
  }

  lemma {:induction false} RecordsOfOne(net: Net, id: NodeId)
    requires id in net.nodes
    ensures RecordsOf(net, {id}) == net.nodes[id].services.Values
  {
  }

  lemma {:induction false} ReachedByPull(x: Execution, t: nat, i: NodeId)
    requires OnlySyncs(x) && 0 < t <= |x.trace| && i in Reached(x, t - 1)
    ensures Pulls(x, t - 1, i) ==> x.trace[t - 1].peer in Reached(x, t - 1)
    ensures i in Reached(x, t) && Reached(x, t)[i] == Reached(x, t - 1)[i]
      + if Pulls(x, t - 1, i) then Reached(x, t - 1)[x.trace[t - 1].peer] else {}
  {
    x.NodesKeepTheirIds(t - 1);
    x.NodesKeepTheirIds(t);
    ReachedStep(x, t, i);
    assert x.trace[t - 1].SyncWith?;
  }

  lemma {:induction false} HeardByPull(x: Execution, t: nat, i: NodeId)
    requires x.Valid() && 0 < t <= |x.trace|
    ensures
      var first, before := x.nets[0], Heard(x, t - 1, i);
      RecordsOf(first, Heard(x, t, i)) == RecordsOf(first, before)
        + if Pulls(x, t - 1, i) then RecordsOf(first, Heard(x, t - 1, x.trace[t - 1].peer)) else {}
  {
    if Pulls(x, t - 1, i) {
      RecordsOfUnion(x.nets[0], Heard(x, t - 1, i), Heard(x, t - 1, x.trace[t - 1].peer));
    } else {
      assert Heard(x, t, i) == Heard(x, t - 1, i);
    }
  }

  lemma {:induction false} ReachedAtStart(x: Execution, i: NodeId)
    requires x.Valid() && i in x.nets[0].nodes
    ensures i in Reached(x, 0) && Reached(x, 0)[i] == RecordsOf(x.nets[0], Heard(x, 0, i))
  {
    RecordsOfOne(x.nets[0], i);
  }

  lemma {:induction false} PulledIsHeard(x: Execution, t: nat, i: NodeId)
    requires OnlySyncs(x) && 0 < t <= |x.trace|
    requires i in Reached(x, t - 1) && Reached(x, t - 1)[i] == RecordsOf(x.nets[0], Heard(x, t - 1, i))
    requires
      var peer := x.trace[t - 1].peer;
      Pulls(x, t - 1, i) ==>
        peer in Reached(x, t - 1) && Reached(x, t - 1)[peer] == RecordsOf(x.nets[0], Heard(x, t - 1, peer))
    ensures i in Reached(x, t) && Reached(x, t)[i] == RecordsOf(x.nets[0], Heard(x, t, i))
  {
    ReachedByPull(x, t, i);
    HeardByPull(x, t, i);
  }

  lemma {:induction false} ReachedIsHeard(x: Execution, t: nat, i: NodeId)
    requires OnlySyncs(x) && t <= |x.trace| && i in x.nets[0].nodes
    ensures i in Reached(x, t) && Reached(x, t)[i] == RecordsOf(x.nets[0], Heard(x, t, i))
    decreases t
  {
    if t == 0 {
      ReachedAtStart(x, i);
    } else {
      ReachedIsHeard(x, t - 1, i);
      if Pulls(x, t - 1, i) {
        x.NodesKeepTheirIds(t - 1);
        ReachedIsHeard(x, t - 1, x.trace[t - 1].peer);
      }
      PulledIsHeard(x, t, i);
    }
  }

  /** For any sequence of pulls on any topology, each node holds the dominant records among the initial ones of the
      nodes it has heard from, directly or through others. */
  lemma {:induction false} PullsHoldDominants(x: Execution, t: nat, i: NodeId, all: set<ServiceRecord>)
    requires OnlySyncs(x) && t <= |x.trace| && i in x.nets[0].nodes
    requires RecordsOf(x.nets[0], Heard(x, t, i)) <= all
    ensures i in x.nets[t].nodes
    ensures HoldsDominants(x.nets[t].nodes[i].services, RecordsOf(x.nets[0], Heard(x, t, i)), all)
  {
    ReachedIsHeard(x, t, i);
    ServicesHoldDominants(x, t, i, all);
  }

  /** Its services are then their join, if each of those services has a dominant record. */
  lemma {:induction false} PullsComputeJoins(x: Execution, t: nat, i: NodeId)
    requires OnlySyncs(x) && t <= |x.trace| && i in x.nets[0].nodes
    requires AllHaveDominants(RecordsOf(x.nets[0], Heard(x, t, i)))
    ensures i in x.nets[t].nodes
    ensures IsJoin(x.nets[t].nodes[i].services, RecordsOf(x.nets[0], Heard(x, t, i)))
  {
    ReachedIsHeard(x, t, i);
    ServicesAreJoins(x, t, i);
  }
}
