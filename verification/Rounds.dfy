/** One round of anti-entropy over a full mesh, and when exactly it makes all registries equal. */
module Rounds {
  import opened Convergence
  import opened DeliveryOrders
  import opened ServiceRecords
  import opened FederationNode
  import opened FederationNetwork

  // ---------------------------------------------------------------------------------------
  // Who has heard whom
  // ---------------------------------------------------------------------------------------

  /** One node's anti-entropy: it pulls from its peers one after the other. */
  datatype Turn = Turn(node: NodeId, peers: seq<NodeId>, nonce: string)

  function TurnSteps(turn: Turn): seq<Step> {
    seq(|turn.peers|, k requires 0 <= k < |turn.peers| => SyncWith(turn.node, turn.peers[k], turn.nonce))
  }

  function RoundSteps(turns: seq<Turn>): seq<Step> {
    if turns == [] then [] else TurnSteps(turns[0]) + RoundSteps(turns[1..])
  }

  lemma {:induction false} StepOfTurn(turns: seq<Turn>, k: nat, b: nat) returns (s: nat)
    requires k < |turns| && b < |turns[k].peers|
    ensures s < |RoundSteps(turns)|
    ensures RoundSteps(turns)[s] == SyncWith(turns[k].node, turns[k].peers[b], turns[k].nonce)
    ensures if k == 0 then s == b else s >= |turns[0].peers|
  {
    if k == 0 {
      s := b;
    } else {
      var rest := StepOfTurn(turns[1..], k - 1, b);
      s := |turns[0].peers| + rest;
    }
  }

  ghost predicate FullMesh(net: Net) {
    forall i, j :: i in net.nodes && j in net.nodes && i != j ==> j in net.nodes[i].peers
  }

  ghost predicate TakesTurn(turns: seq<Turn>, id: NodeId) {
    exists k :: 0 <= k < |turns| && turns[k].node == id
  }

  /** Every node takes a turn, and pulls from all others in it. */
  ghost predicate FullRound(turns: seq<Turn>, nodes: set<NodeId>) {
    && turns != []
    && (forall id :: id in nodes ==> TakesTurn(turns, id))
    && (forall k :: 0 <= k < |turns| ==>
         turns[k].node in nodes && forall id :: id in nodes && id != turns[k].node ==> id in turns[k].peers)
  }

  ghost predicate OneRound(x: Execution, turns: seq<Turn>) {
    && OnlySyncs(x) && FullMesh(x.nets[0]) && FullRound(turns, x.nets[0].nodes.Keys)
    && x.trace == RoundSteps(turns)
  }

  lemma {:induction false} PeersStay(x: Execution, t: nat, i: NodeId)
    requires OnlySyncs(x) && t <= |x.trace| && i in x.nets[0].nodes
    ensures i in x.nets[t].nodes && x.nets[t].nodes[i].peers == x.nets[0].nodes[i].peers
  {
    if t > 0 {
      PeersStay(x, t - 1, i);
      assert x.Follows(t - 1) && x.trace[t - 1].SyncWith?;
      if x.trace[t - 1].node == i {
        ActingNode(x.maxSeen, x.nets[t - 1], x.trace[t - 1]);
      } else {
        x.OtherNodesRest(t - 1, i);
      }
    }
  }

  lemma {:induction false} HeardGrows(x: Execution, t: nat, u: nat, i: NodeId)
    requires x.Valid() && t <= u <= |x.trace|
    ensures i in Heard(x, t, i) && Heard(x, t, i) <= Heard(x, u, i)
    decreases u
  {
    if t < u {
      HeardGrows(x, t, u - 1, i);
    } else if t > 0 {
      HeardGrows(x, t - 1, u - 1, i);
    }
  }

  lemma {:induction false} HeardAreNodes(x: Execution, t: nat, i: NodeId)
    requires x.Valid() && t <= |x.trace| && i in x.nets[0].nodes
    ensures Heard(x, t, i) <= x.nets[0].nodes.Keys
    decreases t
  {
    if t > 0 {
      HeardAreNodes(x, t - 1, i);
      if Pulls(x, t - 1, i) {
        x.NodesKeepTheirIds(t - 1);
        HeardAreNodes(x, t - 1, x.trace[t - 1].peer);
      }
    }
  }

  /** A pull along the mesh brings all that the peer has heard. */
  lemma {:induction false} PullHears(x: Execution, s: nat, t: nat, i: NodeId, p: NodeId)
    requires OnlySyncs(x) && FullMesh(x.nets[0]) && i in x.nets[0].nodes && p in x.nets[0].nodes && i != p
    requires s < t <= |x.trace| && x.trace[s].node == i && x.trace[s].peer == p
    ensures Heard(x, s, p) <= Heard(x, t, i)
  {
    PeersStay(x, s, i);
    PeersStay(x, s, p);
    assert x.trace[s].SyncWith? && Pulls(x, s, i);
    HeardGrows(x, s + 1, t, i);
  }

  /** The first node to take its turn has then heard everyone. */
  lemma {:induction false} LeaderHearsAll(x: Execution, turns: seq<Turn>)
    requires OneRound(x, turns)
    ensures |turns[0].peers| <= |x.trace|
    ensures x.nets[0].nodes.Keys <= Heard(x, |turns[0].peers|, turns[0].node)
  {
    var leader, m := turns[0].node, |turns[0].peers|;
    forall p | p in x.nets[0].nodes
      ensures p in Heard(x, m, leader)
    {
      if p == leader {
        HeardGrows(x, m, m, leader);
      } else {
        var b :| 0 <= b < m && turns[0].peers[b] == p;
        var s := StepOfTurn(turns, 0, b);
        PullHears(x, s, m, leader, p);
        HeardGrows(x, s, s, p);
      }
    }
  }

  lemma {:induction false} EveryoneHearsAll(x: Execution, turns: seq<Turn>, i: NodeId)
    requires OneRound(x, turns) && i in x.nets[0].nodes
    ensures Heard(x, |x.trace|, i) == x.nets[0].nodes.Keys
  {
    var leader, m := turns[0].node, |turns[0].peers|;
    LeaderHearsAll(x, turns);
    HeardAreNodes(x, |x.trace|, i);
    if i == leader {
      HeardGrows(x, m, |x.trace|, leader);
    } else {
      assert TakesTurn(turns, i);
      var k :| 0 <= k < |turns| && turns[k].node == i;
      var b :| 0 <= b < |turns[k].peers| && turns[k].peers[b] == leader;
      var s := StepOfTurn(turns, k, b);
      HeardGrows(x, m, s, leader);
      PullHears(x, s, |x.trace|, i, leader);
    }
  }

  /** After one round in which every node in turn pulls from all others, all registries are equal, if each service
      has a dominant record. */
  lemma {:induction false} OneRoundEqualisesAll(x: Execution, turns: seq<Turn>, i: NodeId, j: NodeId)
    requires OneRound(x, turns) && i in x.nets[0].nodes && j in x.nets[0].nodes
    requires AllHaveDominants(RecordsOf(x.nets[0], x.nets[0].nodes.Keys))
    ensures i in x.nets[|x.trace|].nodes && j in x.nets[|x.trace|].nodes
    ensures x.nets[|x.trace|].nodes[i].services == x.nets[|x.trace|].nodes[j].services
  {
    var all := RecordsOf(x.nets[0], x.nets[0].nodes.Keys);
    EveryoneHearsAll(x, turns, i);
    EveryoneHearsAll(x, turns, j);
    PullsHoldDominants(x, |x.trace|, i, all);
    PullsHoldDominants(x, |x.trace|, j, all);
    SameDominantMaps(x.nets[|x.trace|].nodes[i].services, x.nets[|x.trace|].nodes[j].services, all);
  }

  // ---------------------------------------------------------------------------------------
  // Without dominant records a round can leave registries different
  // ---------------------------------------------------------------------------------------

  ghost predicate Holds(net: Net, i: NodeId, r: ServiceRecord) {
    i in net.nodes && r.serviceId in net.nodes[i].services && net.nodes[i].services[r.serviceId] == r
  }

  lemma {:induction false} Unmoved(x: Execution, t: nat, i: NodeId, r: ServiceRecord, u: nat)
    requires x.Valid() && t <= u <= |x.trace| && Holds(x.nets[t], i, r)
    requires forall s :: t <= s < u ==> x.trace[s].node != i
    ensures Holds(x.nets[u], i, r)
  {
    if t < u {
      Unmoved(x, t, i, r, u - 1);
      x.OtherNodesRest(u - 1, i);
    }
  }

  lemma {:induction false} OnlyInitialRecords(x: Execution, t: nat, i: NodeId, id: string)
    requires OnlySyncs(x) && t <= |x.trace| && i in x.nets[0].nodes
    ensures i in x.nets[t].nodes
    ensures id in x.nets[t].nodes[i].services ==>
      && x.nets[t].nodes[i].services[id] in RecordsOf(x.nets[0], x.nets[0].nodes.Keys)
      && x.nets[t].nodes[i].services[id].serviceId == id
  {
    HeardAreNodes(x, t, i);
    PullsHoldDominants(x, t, i, RecordsOf(x.nets[0], x.nets[0].nodes.Keys));
  }

  /** No record of the network is preferred to d. */
  ghost predicate Unbeaten(net: Net, d: ServiceRecord) {
    forall r :: r in RecordsOf(net, net.nodes.Keys) && r.serviceId == d.serviceId ==> !Preferred(r, d)
  }

  lemma {:induction false} TakesOver(local: ServiceRecord, d: ServiceRecord)
    requires local.serviceId == d.serviceId && !Preferred(local, d)
    ensures Kept(local, d) == d
  {
    if Preferred(d, local) {
      KeptAgainst(d, local);
    } else {
      IncomparableSharesTimestamp(d, local);
    }
  }

  ghost predicate PullsFrom(x: Execution, t: nat, i: NodeId, p: NodeId) {
    t < |x.trace| && x.trace[t].node == i && x.trace[t].SyncWith? && x.trace[t].peer == p && i != p
  }

  lemma {:induction false} PullServices(x: Execution, t: nat, i: NodeId)
    requires OnlySyncs(x) && 0 < t <= |x.trace| && Pulls(x, t - 1, i)
    ensures i in x.nets[t].nodes
    ensures x.nets[t].nodes[i].services
      == Synced(x.nets[t - 1].nodes[i].services, x.nets[t - 1].nodes[x.trace[t - 1].peer].services)
  {
    assert x.Follows(t - 1);
    ActingNode(x.maxSeen, x.nets[t - 1], x.trace[t - 1]);
  }

  lemma {:induction false} PullBrings(x: Execution, t: nat, i: NodeId, p: NodeId, r: ServiceRecord)
    requires OnlySyncs(x) && FullMesh(x.nets[0]) && 0 < t <= |x.trace| && PullsFrom(x, t - 1, i, p)
    requires i in x.nets[0].nodes && Holds(x.nets[t - 1], p, r)
    requires i in x.nets[t - 1].nodes && r.serviceId in x.nets[t - 1].nodes[i].services ==>
      Kept(x.nets[t - 1].nodes[i].services[r.serviceId], r) == r
    ensures Holds(x.nets[t], i, r)
  {
    assert x.trace[t - 1].SyncWith?;
    x.NodesKeepTheirIds(t - 1);
    PeersStay(x, t - 1, i);
    PullServices(x, t, i);
  }

  lemma {:induction false} PullBringsBest(x: Execution, t: nat, i: NodeId, p: NodeId, d: ServiceRecord)
    requires OnlySyncs(x) && FullMesh(x.nets[0]) && 0 < t <= |x.trace| && PullsFrom(x, t - 1, i, p)
    requires i in x.nets[0].nodes && Holds(x.nets[t - 1], p, d) && Unbeaten(x.nets[0], d)
    ensures Holds(x.nets[t], i, d)
  {
    OnlyInitialRecords(x, t - 1, i, d.serviceId);
    if d.serviceId in x.nets[t - 1].nodes[i].services {
      TakesOver(x.nets[t - 1].nodes[i].services[d.serviceId], d);
    }
    PullBrings(x, t, i, p, d);
  }

  /** A best record and another one with its timestamp, at two nodes each. */
  ghost predicate RivalsPlaced(
      net: Net, d: ServiceRecord, e: ServiceRecord, a: NodeId, a': NodeId, b: NodeId, b': NodeId)
  {
    && Unbeaten(net, d) && d != e
    && d.serviceId == e.serviceId && d.registrationTimestamp == e.registrationTimestamp
    && Holds(net, a, d) && Holds(net, a', d) && a != a'
    && Holds(net, b, e) && Holds(net, b', e) && b != b'
  }

  /** First b moves, and last pulls from a and b', then a, which last pulls from a', then others. */
  ghost predicate MoveInTurn(
      trace: seq<Step>, m: nat, n: nat, a: NodeId, a': NodeId, b: NodeId, b': NodeId)
  {
    && 2 <= m < n <= |trace|
    && (forall s :: 0 <= s < m ==> trace[s].node == b)
    && (forall s :: m <= s < n ==> trace[s].node == a)
    && (forall s :: n <= s < |trace| ==> trace[s].node != a && trace[s].node != b)
    && trace[m - 2].SyncWith? && trace[m - 2].peer == a && trace[m - 1].SyncWith? && trace[m - 1].peer == b'
    && trace[n - 1].SyncWith? && trace[n - 1].peer == a'
  }

  lemma {:induction false} TwoTurnsDiverge(
      x: Execution, m: nat, n: nat, d: ServiceRecord, e: ServiceRecord,
      a: NodeId, a': NodeId, b: NodeId, b': NodeId)
    requires OnlySyncs(x) && FullMesh(x.nets[0]) && RivalsPlaced(x.nets[0], d, e, a, a', b, b')
    requires MoveInTurn(x.trace, m, n, a, a', b, b')
    ensures Holds(x.nets[|x.trace|], a, d) && Holds(x.nets[|x.trace|], b, e)
  {
    assert Holds(x.nets[m - 1], b, d) by {
      Unmoved(x, 0, a, d, m - 2);
      PullBringsBest(x, m - 1, b, a, d);
    }
    assert Holds(x.nets[m], b, e) by {
      Unmoved(x, 0, b', e, m - 1);
      PullBrings(x, m, b, b', e);
    }
    Unmoved(x, m, b, e, |x.trace|);
    assert Holds(x.nets[n], a, d) by {
      Unmoved(x, 0, a', d, n - 1);
      PullBringsBest(x, n, a, a', d);
    }
    Unmoved(x, n, a, d, |x.trace|);
  }

  // ---------------------------------------------------------------------------------------
  // Such a round exists
  // ---------------------------------------------------------------------------------------

  lemma {:induction false} ListingOf(ids: set<NodeId>) returns (s: seq<NodeId>)
    ensures |s| == |ids| && forall id :: id in s <==> id in ids
    decreases |ids|
  {
    if ids == {} {
      s := [];
    } else {
      var id :| id in ids;
      var rest := ListingOf(ids - {id});
      s := rest + [id];
    }
  }

  /** Each of the nodes pulls once from every other one of all. */
  ghost predicate TurnsOf(turns: seq<Turn>, nodes: set<NodeId>, all: set<NodeId>) {
    && (forall id :: id in nodes ==> TakesTurn(turns, id))
    && (forall k :: 0 <= k < |turns| ==>
         turns[k].node in nodes && forall id :: id in turns[k].peers <==> id in all && id != turns[k].node)
  }

  lemma {:induction false} SomeTurns(nodes: set<NodeId>, all: set<NodeId>) returns (turns: seq<Turn>)
    ensures TurnsOf(turns, nodes, all)
    decreases |nodes|
  {
    if nodes == {} {
      turns := [];
    } else {
      var id :| id in nodes;
      var rest := SomeTurns(nodes - {id}, all);
      var peers := ListingOf(all - {id});
      turns := rest + [Turn(id, peers, "")];
      assert turns[|rest|].node == id;
      forall other | other in nodes && other != id
        ensures TakesTurn(turns, other)
      {
        assert TakesTurn(rest, other);
        var k :| 0 <= k < |rest| && rest[k].node == other;
        assert turns[k].node == other;
      }
    }
  }

  lemma {:induction false} RoundIsPulls(turns: seq<Turn>)
    ensures forall s :: 0 <= s < |RoundSteps(turns)| ==> RoundSteps(turns)[s].SyncWith?
  {
    if turns != [] {
      RoundIsPulls(turns[1..]);
    }
  }

  lemma {:induction false} NobodyElseMoves(turns: seq<Turn>, a: NodeId, b: NodeId)
    requires forall k :: 0 <= k < |turns| ==> turns[k].node != a && turns[k].node != b
    ensures forall s :: 0 <= s < |RoundSteps(turns)| ==>
      RoundSteps(turns)[s].node != a && RoundSteps(turns)[s].node != b
  {
    if turns != [] {
      NobodyElseMoves(turns[1..], a, b);
    }
  }

  ghost predicate Diverging(turns: seq<Turn>, a: NodeId, a': NodeId, b: NodeId, b': NodeId) {
    && |turns| >= 2 && turns[0].node == b && turns[1].node == a
    && |turns[0].peers| >= 2 && |turns[1].peers| >= 1
    && turns[0].peers[|turns[0].peers| - 2] == a && turns[0].peers[|turns[0].peers| - 1] == b'
    && turns[1].peers[|turns[1].peers| - 1] == a'
    && forall k :: 2 <= k < |turns| ==> turns[k].node != a && turns[k].node != b
  }

  lemma {:induction false} EveryoneTakesTurn(first: Turn, second: Turn, rest: seq<Turn>, all: set<NodeId>)
    requires TurnsOf(rest, all - {first.node, second.node}, all)
    requires first.node in all && second.node in all
    requires forall id :: id in all && id != first.node ==> id in first.peers
    requires forall id :: id in all && id != second.node ==> id in second.peers
    ensures FullRound([first, second] + rest, all)
  {
    var turns := [first, second] + rest;
    assert turns[0] == first && turns[1] == second;
    forall id | id in all && id != first.node && id != second.node
      ensures TakesTurn(turns, id)
    {
      assert TakesTurn(rest, id);
      var k :| 0 <= k < |rest| && rest[k].node == id;
      assert turns[k + 2].node == id;
    }
  }

  lemma {:induction false} DivergingTurns(all: set<NodeId>, a: NodeId, a': NodeId, b: NodeId, b': NodeId)
    returns (turns: seq<Turn>)
    requires {a, a', b, b'} <= all && a != a' && b != b' && a != b && a != b'
    ensures FullRound(turns, all) && Diverging(turns, a, a', b, b')
  {
    var others := ListingOf(all - {a, b, b'});
    var first := Turn(b, others + [a, b'], "");
    assert first.peers[|others|] == a && first.peers[|others| + 1] == b';
    var others' := ListingOf(all - {a, a'});
    var second := Turn(a, others' + [a'], "");
    assert second.peers[|others'|] == a';
    var rest := SomeTurns(all - {a, b}, all);
    EveryoneTakesTurn(first, second, rest, all);
    turns := [first, second] + rest;
  }

  lemma {:induction false} StepsOfTwoTurns(turns: seq<Turn>)
    requires |turns| >= 2
    ensures RoundSteps(turns) == TurnSteps(turns[0]) + TurnSteps(turns[1]) + RoundSteps(turns[2..])
  {
    assert turns[1..][1..] == turns[2..];
  }

  lemma {:induction false} StepsInOrder(trace: seq<Step>, first: Turn, second: Turn, rest: seq<Step>)
    requires trace == TurnSteps(first) + TurnSteps(second) + rest
    ensures
      var m, n := |first.peers|, |first.peers| + |second.peers|;
      && n <= |trace|
      && (forall s :: 0 <= s < m ==> trace[s] == SyncWith(first.node, first.peers[s], first.nonce))
      && (forall s :: m <= s < n ==> trace[s] == SyncWith(second.node, second.peers[s - m], second.nonce))
      && (forall s :: n <= s < |trace| ==> trace[s] == rest[s - n])
  {
  }

  lemma {:induction false} TurnsMoveInTurn(
      trace: seq<Step>, first: Turn, second: Turn, rest: seq<Step>, a: NodeId, a': NodeId, b: NodeId, b': NodeId)
    requires trace == TurnSteps(first) + TurnSteps(second) + rest && Diverging([first, second], a, a', b, b')
    requires forall s :: 0 <= s < |rest| ==> rest[s].node != a && rest[s].node != b
    ensures MoveInTurn(trace, |first.peers|, |first.peers| + |second.peers|, a, a', b, b')
  {
    StepsInOrder(trace, first, second, rest);
  }

  lemma {:induction false} DivergingMove(turns: seq<Turn>, a: NodeId, a': NodeId, b: NodeId, b': NodeId)
    requires Diverging(turns, a, a', b, b')
    ensures MoveInTurn(RoundSteps(turns), |turns[0].peers|, |turns[0].peers| + |turns[1].peers|, a, a', b, b')
  {
    StepsOfTwoTurns(turns);
    NobodyElseMoves(turns[2..], a, b);
    TurnsMoveInTurn(RoundSteps(turns), turns[0], turns[1], RoundSteps(turns[2..]), a, a', b, b');
  }

  ghost predicate RoundsEqualise(net: Net) {
    forall x: Execution, turns: seq<Turn>, i: NodeId, j: NodeId ::
      OneRound(x, turns) && x.nets[0] == net && i in net.nodes && j in net.nodes ==> EndAlike(x, i, j)
  }

  ghost predicate EndAlike(x: Execution, i: NodeId, j: NodeId)
    requires x.Valid()
  {
    var net := x.nets[|x.trace|];
    i in net.nodes && j in net.nodes && net.nodes[i].services == net.nodes[j].services
  }

  lemma {:induction false} TheseTurnsDiverge(
      x: Execution, turns: seq<Turn>, d: ServiceRecord, e: ServiceRecord,
      a: NodeId, a': NodeId, b: NodeId, b': NodeId)
    requires OneRound(x, turns) && RivalsPlaced(x.nets[0], d, e, a, a', b, b') && Diverging(turns, a, a', b, b')
    ensures Holds(x.nets[|x.trace|], a, d) && Holds(x.nets[|x.trace|], b, e)
  {
    DivergingMove(turns, a, a', b, b');
    TwoTurnsDiverge(x, |turns[0].peers|, |turns[0].peers| + |turns[1].peers|, d, e, a, a', b, b');
  }

  lemma {:induction false} RoundTakesPlace(net: Net, turns: seq<Turn>) returns (x: Execution)
    requires Initial(net) && FullMesh(net) && FullRound(turns, net.nodes.Keys)
    ensures OneRound(x, turns) && x.nets[0] == net
  {
    x := Run(0, net, RoundSteps(turns));
    RoundIsPulls(turns);
  }

  lemma {:induction false} RoundDiverges(
      net: Net, d: ServiceRecord, e: ServiceRecord, a: NodeId, a': NodeId, b: NodeId, b': NodeId)
    requires Initial(net) && FullMesh(net) && RivalsPlaced(net, d, e, a, a', b, b')
    ensures !RoundsEqualise(net)
  {
    var turns := DivergingTurns(net.nodes.Keys, a, a', b, b');
    var x := RoundTakesPlace(net, turns);
    TheseTurnsDiverge(x, turns, d, e, a, a', b, b');
    assert !EndAlike(x, a, b);
  }

  /** Every record that a node holds is held by another one too. */
  ghost predicate HeldTwice(net: Net) {
    forall r :: r in RecordsOf(net, net.nodes.Keys) ==> exists i, j :: i != j && Holds(net, i, r) && Holds(net, j, r)
  }

  lemma {:induction false} RivalsDiverge(net: Net, id: string)
    requires Initial(net) && FullMesh(net) && HeldTwice(net)
    requires exists r :: r in RecordsOf(net, net.nodes.Keys) && r.serviceId == id
    requires !HasDominant(RecordsOf(net, net.nodes.Keys), id)
    ensures !RoundsEqualise(net)
  {
    var d, e := Rivals(RecordsOf(net, net.nodes.Keys), id);
    var a, a' :| a != a' && Holds(net, a, d) && Holds(net, a', d);
    var b, b' :| b != b' && Holds(net, b, e) && Holds(net, b', e);
    RoundDiverges(net, d, e, a, a', b, b');
  }

  /** When each record is at two nodes or more, dominant records are also necessary: without them some round leaves
      two registries different. */
  lemma {:induction false} OneRoundEqualisesExactly(net: Net)
    requires Initial(net) && FullMesh(net) && HeldTwice(net)
    ensures RoundsEqualise(net) <==> AllHaveDominants(RecordsOf(net, net.nodes.Keys))
  {
    if AllHaveDominants(RecordsOf(net, net.nodes.Keys)) {
      forall x: Execution, turns: seq<Turn>, i: NodeId, j: NodeId |
        OneRound(x, turns) && x.nets[0] == net && i in net.nodes && j in net.nodes
        ensures EndAlike(x, i, j)
      {
        OneRoundEqualisesAll(x, turns, i, j);
      }
    } else {
      var r :| r in RecordsOf(net, net.nodes.Keys) && !HasDominant(RecordsOf(net, net.nodes.Keys), r.serviceId);
      RivalsDiverge(net, r.serviceId);
    }
  }
}
