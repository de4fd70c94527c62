/** The node objects take exactly the steps of the network model: what is proved of its runs holds of them. */
module FederationObjects {
  import opened Wrappers
  import opened FederationNode
  import opened FederationNetwork

  type Nodes = map<NodeId, FederatedRegistryNode>

  /** The object is in the given state, and its peers are objects of the federation. */
  ghost predicate Stands(nodes: Nodes, maxSeen: nat, node: FederatedRegistryNode, s: NodeState)
    reads node
  {
    && node.Valid() && node.State() == s && node.maxSeenNonces == maxSeen
    && forall p :: p in node.peers ==> p in nodes && node.peers[p] == nodes[p]
  }

  ghost predicate Represents(nodes: Nodes, maxSeen: nat, net: Net)
    reads nodes.Values
  {
    && nodes.Keys == net.nodes.Keys
    && forall id :: id in nodes ==> nodes[id].nodeId == id && Stands(nodes, maxSeen, nodes[id], net.nodes[id])
  }

  /** What a step does through the object, and the event it creates, if any. */
  ghost predicate Took(effect: Effect, s: NodeState, event: Option<FederationEvent>) {
    match effect.emitted
    case None => s == effect.state && event == None
    case Some(payload) => s == Tick(effect.state) && event == Some(EventOf(s, payload, effect.nonce))
  }

  method Act(nodes: Nodes, maxSeen: nat, step: Step, created: seq<FederationEvent>, ghost net: Net)
    returns (event: Option<FederationEvent>)
    requires Represents(nodes, maxSeen, net) && created == net.created
    requires step.node in nodes && (step.Connect? ==> step.peer in nodes)
    modifies nodes[step.node]
    ensures Took(EffectOf(maxSeen, net, step), nodes[step.node].State(), event)
    ensures Stands(nodes, maxSeen, nodes[step.node], nodes[step.node].State())
  {
    var node := nodes[step.node];
    assert Stands(nodes, maxSeen, node, net.nodes[step.node]);
    event := None;
    match step {
      case Connect(_, peer) =>
        node.AddPeer(nodes[peer]);
      case Disconnect(_, peer) =>
        node.RemovePeer(peer);
      case Register(_, record, nonce) =>
        event := node.RegisterService(record, nonce);
      case Revoke(_, serviceId, nonce) =>
        var revoked := node.RevokeService(serviceId, nonce);
        event := Some(revoked);
      case SyncWith(_, peer, nonce) =>
        event := PullFrom(nodes, maxSeen, node, peer, nonce, net);
      case Deliver(_, index) =>
        if index < |created| {
          node.ReceiveFederationEvent(created[index]);
        }
    }
  }

  method PullFrom(
      nodes: Nodes, maxSeen: nat, node: FederatedRegistryNode, peer: NodeId, nonce: string, ghost net: Net)
    returns (event: Option<FederationEvent>)
    requires Represents(nodes, maxSeen, net) && node.nodeId in nodes && node == nodes[node.nodeId]
    modifies node
    ensures Took(EffectOf(maxSeen, net, SyncWith(node.nodeId, peer, nonce)), node.State(), event)
    ensures Stands(nodes, maxSeen, node, node.State())
  {
    assert Stands(nodes, maxSeen, node, net.nodes[node.nodeId]);
    if peer in node.peers {
      assert Stands(nodes, maxSeen, nodes[peer], net.nodes[peer]);
    }
    event := node.SyncWithPeer(peer, nonce);
  }

  /** One step of the federation on its objects. A created event joins those that may be delivered. */
  method TakeStep(nodes: Nodes, maxSeen: nat, step: Step, created: seq<FederationEvent>, ghost net: Net)
    returns (created': seq<FederationEvent>)
    requires Represents(nodes, maxSeen, net) && created == net.created
    requires step.node in nodes && (step.Connect? ==> step.peer in nodes)
    modifies nodes[step.node]
    ensures Represents(nodes, maxSeen, Apply(maxSeen, net, step))
    ensures created' == Apply(maxSeen, net, step).created
  {
    var event := Act(nodes, maxSeen, step, created, net);
    created' := if event.Some? then created + [event.value] else created;
    ghost var s := nodes[step.node].State();
    TookIsApply(maxSeen, net, step, s, event);
    forall id | id in nodes
      ensures nodes[id].nodeId == id && Stands(nodes, maxSeen, nodes[id], net.nodes[step.node := s][id])
    {
      assert old(Stands(nodes, maxSeen, nodes[id], net.nodes[id]));
      assert id != step.node ==> nodes[id] != nodes[step.node];
    }
  }

  lemma {:induction false} TookIsApply(maxSeen: nat, net: Net, step: Step, s: NodeState, event: Option<FederationEvent>)
    requires step.node in net.nodes && Took(EffectOf(maxSeen, net, step), s, event)
    ensures Apply(maxSeen, net, step)
      == Net(net.nodes[step.node := s], if event.Some? then net.created + [event.value] else net.created)
  {
  }

  /** A whole run on the objects ends where the model's run ends. */
  method TakeSteps(nodes: Nodes, maxSeen: nat, trace: seq<Step>, ghost init: Net)
    returns (created: seq<FederationEvent>)
    requires Initial(init) && Represents(nodes, maxSeen, init)
    requires forall t :: 0 <= t < |trace| ==>
      trace[t].node in nodes && (trace[t].Connect? ==> trace[t].peer in nodes)
    modifies nodes.Values
    ensures Represents(nodes, maxSeen, Run(maxSeen, init, trace).nets[|trace|])
    ensures created == Run(maxSeen, init, trace).nets[|trace|].created
  {
    if trace == [] {
      return [];
    }
    var n := |trace| - 1;
    created := TakeSteps(nodes, maxSeen, trace[..n], init);
    assert nodes[trace[n].node] in nodes.Values;
    created := TakeStep(nodes, maxSeen, trace[n], created, Run(maxSeen, init, trace[..n]).nets[n]);
    RunOneMore(maxSeen, init, trace);
  }

  lemma {:induction false} RunOneMore(maxSeen: nat, init: Net, trace: seq<Step>)
    requires Initial(init) && trace != []
    ensures
      var n := |trace| - 1;
      Run(maxSeen, init, trace).nets[n + 1] == Apply(maxSeen, Run(maxSeen, init, trace[..n]).nets[n], trace[n])
  {
  }
}
