/** Runs of a federation: nodes that register, pull from peers and receive events. Every event ever
    created may be delivered to any node at any later time, any number of times or never. */
module FederationNetwork {
  import opened ServiceRecords
  import opened FederationNode
  import opened Wrappers

  datatype Step =
    | Connect(node: NodeId, peer: NodeId)
    | Disconnect(node: NodeId, peer: NodeId)
    | Register(node: NodeId, record: ServiceRecord, nonce: string)
    | Revoke(node: NodeId, serviceId: string, nonce: string)
    | SyncWith(node: NodeId, peer: NodeId, nonce: string)
    | Deliver(node: NodeId, index: nat)

  /** `created` lists all events in the order of their creation. */
  datatype Net = Net(nodes: map<NodeId, NodeState>, created: seq<FederationEvent>)

  /** What a step leaves its node with, and the payload of the event it then creates, if any. */
  datatype Effect = Effect(state: NodeState, emitted: Option<Payload>, nonce: string)

  function Quietly(s: NodeState): Effect {
    Effect(s, None, "")
  }

  /** A step that the code would not take, such as delivering an event that does not exist yet, changes
      nothing. */
  function EffectOf(maxSeen: nat, net: Net, step: Step): Effect
    requires step.node in net.nodes
  {
    var s := net.nodes[step.node];
    match step
    case Connect(_, peer) =>
      Quietly(s.(peers := s.peers + {peer}, clock := if peer in s.clock then s.clock else s.clock[peer := 0]))
    case Disconnect(_, peer) => Quietly(s.(peers := s.peers - {peer}))
    case Register(_, record, nonce) =>
      if AlreadyRegistered(s.services, record) then Quietly(s)
      else Effect(s.(services := s.services[record.serviceId := record]), Some(Registered(record)), nonce)
    case Revoke(_, id, nonce) => Effect(s.(services := s.services - {id}), Some(Removed(id)), nonce)
    case SyncWith(_, peer, nonce) =>
      if peer !in s.peers || peer !in net.nodes then Quietly(s)
      else
        var remote := net.nodes[peer].services;
        Effect(s.(services := Synced(s.services, remote)), Some(SyncReport(s.services, remote)), nonce)
    case Deliver(_, index) =>
      if index < |net.created| then Quietly(Receive(maxSeen, s, net.created[index])) else Quietly(s)
  }

  /** Creating an event counts it in the creator's own clock first. */
  function Apply(maxSeen: nat, net: Net, step: Step): Net {
    if step.node !in net.nodes then net
    else
      var effect := EffectOf(maxSeen, net, step);
      match effect.emitted
      case None => net.(nodes := net.nodes[step.node := effect.state])
      case Some(payload) =>
        var s := Tick(effect.state);
        Net(net.nodes[step.node := s], net.created + [EventOf(s, payload, effect.nonce)])
  }

  /** Step `step` hands its node an event whose nonce it does not remember. */
  predicate AcceptedDelivery(net: Net, step: Step) {
    && step.Deliver? && step.node in net.nodes && step.index < |net.created|
    && Accepts(net.nodes[step.node], net.created[step.index])
  }

  /** Only an accepted delivery and the creation of an event move a clock or the remembered nonces. */
  lemma {:induction false} EffectOnClock(maxSeen: nat, net: Net, step: Step)
    requires step.node in net.nodes
    ensures
      var s, effect := net.nodes[step.node], EffectOf(maxSeen, net, step);
      && effect.state.id == s.id
      && (effect.emitted.Some? ==> !AcceptedDelivery(net, step) && effect.state.clock == s.clock)
      && (AcceptedDelivery(net, step) ==>
            effect.state.clock == MergedClock(s.clock, net.created[step.index].clock))
      && (!AcceptedDelivery(net, step) ==>
            && (forall id :: At(effect.state.clock, id) == At(s.clock, id))
            && effect.state.recent == s.recent)
  {
    match step
    case Connect(_, _) =>
    case Disconnect(_, _) =>
    case Register(_, _, _) =>
    case Revoke(_, _, _) =>
    case SyncWith(_, _, _) =>
    case Deliver(_, _) =>
  }

  lemma {:induction false} EmittedEvent(maxSeen: nat, net: Net, step: Step)
    requires step.node in net.nodes ==> net.nodes[step.node].id == step.node
    requires |Apply(maxSeen, net, step).created| > |net.created|
    ensures step.node in net.nodes && !AcceptedDelivery(net, step)
    ensures
      var net', clock := Apply(maxSeen, net, step), net.nodes[step.node].clock;
      && |net'.created| == |net.created| + 1 && step.node in net'.nodes
      && net'.created[|net.created|].source == step.node
      && net'.created[|net.created|].clock == net'.nodes[step.node].clock
         == clock[step.node := At(clock, step.node) + 1]
  {
    EffectOnClock(maxSeen, net, step);
  }

  lemma {:induction false} ActingNode(maxSeen: nat, net: Net, step: Step)
    requires step.node in net.nodes
    ensures
      var after, effect := Apply(maxSeen, net, step), EffectOf(maxSeen, net, step);
      && step.node in after.nodes
      && after.nodes[step.node].services == effect.state.services
      && after.nodes[step.node].recent == effect.state.recent
      && after.nodes[step.node].peers == effect.state.peers
  {
  }

  ghost predicate Initial(net: Net) {
    && net.created == []
    && forall id :: id in net.nodes ==>
         && net.nodes[id].id == id
         && (forall other :: At(net.nodes[id].clock, other) == 0)
         && net.nodes[id].recent == []
         && KeyedById(net.nodes[id].services)
  }

  /** A run: `nets[t]` is the network after the first t steps. */
  datatype Execution = Execution(maxSeen: nat, trace: seq<Step>, nets: seq<Net>) {

    ghost predicate Follows(t: nat)
      requires t < |trace| && t + 1 < |nets|
    {
      nets[t + 1] == Apply(maxSeen, nets[t], trace[t])
    }

    ghost predicate Valid() {
      && |nets| == |trace| + 1 && Initial(nets[0])
      && forall t :: 0 <= t < |trace| ==> Follows(t)
    }

    /** Step t creates an event. */
    ghost predicate Emits(t: nat) {
      t < |trace| && t + 1 < |nets| && |nets[t].created| < |nets[t + 1].created|
    }

    ghost predicate AcceptsAt(t: nat) {
      t < |trace| && t < |nets| && AcceptedDelivery(nets[t], trace[t])
    }

    /** The event that step t creates. */
    ghost function EventAt(t: nat): FederationEvent
      requires Emits(t)
    {
      nets[t + 1].created[|nets[t].created|]
    }

    ghost function ClockOf(t: nat, id: NodeId): Clock
      requires t < |nets|
    {
      if id in nets[t].nodes then nets[t].nodes[id].clock else map[]
    }

    // -------------------------------------------------------------------------------------
    // One step
    // -------------------------------------------------------------------------------------

    lemma {:induction false} NodesKeepTheirIds(t: nat)
      requires Valid() && t <= |trace|
      ensures nets[t].nodes.Keys == nets[0].nodes.Keys
      ensures forall id :: id in nets[t].nodes ==> nets[t].nodes[id].id == id
    {
      if t > 0 {
        NodesKeepTheirIds(t - 1);
        var before, step := nets[t - 1], trace[t - 1];
        assert Follows(t - 1);
        if step.node in before.nodes {
          EffectOnClock(maxSeen, before, step);
        }
      }
    }

    lemma {:induction false} StepEffect(t: nat)
      requires Valid() && t < |trace|
      ensures nets[t].created <= nets[t + 1].created
      ensures |nets[t + 1].created| <= |nets[t].created| + 1
    {
      assert Follows(t);
    }

    lemma {:induction false} EmittingStep(t: nat)
      requires Valid() && Emits(t)
      ensures |nets[t + 1].created| == |nets[t].created| + 1
      ensures trace[t].node in nets[t].nodes && !AcceptsAt(t)
      ensures EventAt(t).source == trace[t].node
      ensures EventAt(t).clock == ClockOf(t + 1, trace[t].node)
      ensures ClockOf(t + 1, trace[t].node)
        == ClockOf(t, trace[t].node)[trace[t].node := At(ClockOf(t, trace[t].node), trace[t].node) + 1]
    {
      NodesKeepTheirIds(t);
      assert Follows(t);
      EmittedEvent(maxSeen, nets[t], trace[t]);
    }

    lemma {:induction false} SilentStep(t: nat)
      requires Valid() && t < |trace| && !Emits(t)
      ensures nets[t + 1].created == nets[t].created
      ensures AcceptsAt(t) ==>
        ClockOf(t + 1, trace[t].node) == MergedClock(ClockOf(t, trace[t].node), nets[t].created[trace[t].index].clock)
      ensures !AcceptsAt(t) ==>
        forall id :: At(ClockOf(t + 1, trace[t].node), id) == At(ClockOf(t, trace[t].node), id)
    {
      assert Follows(t);
      if trace[t].node in nets[t].nodes {
        EffectOnClock(maxSeen, nets[t], trace[t]);
      }
    }

    lemma {:induction false} OtherNodesRest(t: nat, id: NodeId)
      requires Valid() && t < |trace| && id != trace[t].node
      ensures id in nets[t + 1].nodes <==> id in nets[t].nodes
      ensures id in nets[t].nodes ==> nets[t + 1].nodes[id] == nets[t].nodes[id]
    {
      assert Follows(t);
    }

    lemma {:induction false} CreatedGrows(t: nat, u: nat)
      requires Valid() && t <= u <= |trace|
      ensures nets[t].created <= nets[u].created
    {
      if t < u {
        CreatedGrows(t, u - 1);
        StepEffect(u - 1);
      }
    }
  }

  lemma {:induction false} InitialRun(maxSeen: nat, init: Net)
    requires Initial(init)
    ensures Execution(maxSeen, [], [init]).Valid()
  {
  }

  lemma {:induction false} ExtendedRun(before: Execution, step: Step)
    requires before.Valid()
    ensures
      var net := before.nets[|before.trace|];
      Execution(before.maxSeen, before.trace + [step], before.nets + [Apply(before.maxSeen, net, step)]).Valid()
  {
    var n := |before.trace|;
    var x := Execution(
      before.maxSeen, before.trace + [step], before.nets + [Apply(before.maxSeen, before.nets[n], step)]);
    forall t | 0 <= t < |x.trace|
      ensures x.Follows(t)
    {
      assert x.nets[t] == before.nets[t];
      if t < n {
        assert before.Follows(t) && x.nets[t + 1] == before.nets[t + 1] && x.trace[t] == before.trace[t];
      }
    }
  }

  /** Every initial network can take every sequence of steps. */
  function Run(maxSeen: nat, init: Net, trace: seq<Step>): (x: Execution)
    requires Initial(init)
    ensures x.Valid() && x.maxSeen == maxSeen && x.trace == trace && x.nets[0] == init
  {
    if trace == [] then
      InitialRun(maxSeen, init);
      Execution(maxSeen, [], [init])
    else
      var n := |trace| - 1;
      var before := Run(maxSeen, init, trace[..n]);
      ExtendedRun(before, trace[n]);
      assert trace == before.trace + [trace[n]];
      Execution(maxSeen, trace, before.nets + [Apply(maxSeen, before.nets[n], trace[n])])
  }
}
