/** federated_registry.py: one node of the federation. The pure functions say what each operation does
    to the state of a node; the class carries the operations out. */
module FederationNode {
  import opened Wrappers
  import opened ServiceRecords

  type NodeId = string

  /** A missing entry counts as zero. */
  type Clock = map<NodeId, nat>

  function At(clock: Clock, id: NodeId): nat {
    if id in clock then clock[id] else 0
  }

  function Max(a: nat, b: nat): nat {
    if a < b then b else a
  }

  function MergedClock(a: Clock, b: Clock): Clock {
    map id | id in a.Keys + b.Keys :: Max(At(a, id), At(b, id))
  }

  /** A registration or removal may arrive without saying what; such events are ignored. */
  datatype Payload =
    | Registered(record: ServiceRecord)
    | NoRecord
    | Removed(serviceId: string)
    | SyncCompleted(merged: int, conflictsResolved: int, skipped: int, peerServices: int, localServices: int)

  datatype FederationEvent = FederationEvent(source: NodeId, payload: Payload, clock: Clock, nonce: string)

  // ---------------------------------------------------------------------------------------
  // The state of a node
  // ---------------------------------------------------------------------------------------

  /** `recent` holds the nonces that are still remembered, oldest first. */
  datatype NodeState = NodeState(
    id: NodeId,
    peers: set<NodeId>,
    clock: Clock,
    recent: seq<string>,
    services: Services)

  function LastN<T>(s: seq<T>, n: nat): seq<T> {
    if |s| <= n then s else s[|s| - n..]
  }

  function Tick(s: NodeState): NodeState {
    s.(clock := s.clock[s.id := At(s.clock, s.id) + 1])
  }

  function EventOf(s: NodeState, payload: Payload, nonce: string): FederationEvent {
    FederationEvent(s.id, payload, s.clock, nonce)
  }

  /** A registration of the version already present is answered without any change. */
  predicate AlreadyRegistered(services: Services, record: ServiceRecord) {
    record.serviceId in services && services[record.serviceId].version == record.version
  }

  function Applied(services: Services, payload: Payload): Services {
    match payload
    case Registered(record) => Merge(services, record)
    case NoRecord => services
    case Removed(id) => if id == "" then services else services - {id}
    case SyncCompleted(_, _, _, _, _) => services
  }

  predicate Accepts(s: NodeState, event: FederationEvent) {
    event.nonce !in s.recent
  }

  function Receive(maxSeen: nat, s: NodeState, event: FederationEvent): NodeState {
    if !Accepts(s, event) then s
    else s.(
      clock := MergedClock(s.clock, event.clock),
      recent := LastN(s.recent + [event.nonce], maxSeen),
      services := Applied(s.services, event.payload))
  }

  // ---------------------------------------------------------------------------------------
  // Merging entry by entry
  // ---------------------------------------------------------------------------------------

  lemma {:induction false} MergeClockEntry(a: Clock, rest: Clock, id: NodeId)
    requires id in rest
    ensures MergedClock(a[id := Max(At(a, id), rest[id])], rest - {id}) == MergedClock(a, rest)
  {
  }

  lemma {:induction false} NoClockLeft(a: Clock)
    ensures MergedClock(a, map[]) == a
  {
  }

  predicate RemoteKept(local: ServiceRecord, remote: ServiceRecord) {
    Winner(local, remote).registrationTimestamp == remote.registrationTimestamp
  }

  lemma {:induction false} SyncEntry(services: Services, rest: Services, id: string)
    requires id in rest && rest[id].serviceId == id
    ensures Synced(Merge(services, rest[id]), rest - {id}) == Synced(services, rest)
  {
  }

  datatype MergeOutcome = Adopted | RemoteWon | LocalKept

  function OutcomeOf(services: Services, record: ServiceRecord): MergeOutcome {
    if record.serviceId !in services then Adopted
    else if RemoteKept(services[record.serviceId], record) then RemoteWon
    else LocalKept
  }

  type Outcomes = map<string, MergeOutcome>

  function OutcomesOf(local: Services, remote: Services): Outcomes {
    map id | id in remote :: OutcomeOf(local, remote[id])
  }

  function With(outcomes: Outcomes, outcome: MergeOutcome): set<string> {
    set id | id in outcomes && outcomes[id] == outcome
  }

  function OutcomeCount(local: Services, remote: Services, outcome: MergeOutcome): int {
    |With(OutcomesOf(local, remote), outcome)|
  }

  function SyncReport(local: Services, remote: Services): Payload {
    SyncCompleted(
      OutcomeCount(local, remote, Adopted), OutcomeCount(local, remote, RemoteWon),
      OutcomeCount(local, remote, LocalKept), |remote|, |Synced(local, remote)|)
  }

  lemma {:induction false} OutcomesPartition(outcomes: Outcomes)
    ensures |With(outcomes, Adopted)| + |With(outcomes, RemoteWon)| + |With(outcomes, LocalKept)| == |outcomes|
  {
    var adopted, won, kept := With(outcomes, Adopted), With(outcomes, RemoteWon), With(outcomes, LocalKept);
    assert outcomes.Keys == adopted + (won + kept);
    DisjointSizes(won, kept);
    DisjointSizes(adopted, won + kept);
    assert |outcomes| == |outcomes.Keys|;
  }

  lemma {:induction false} DisjointSizes(a: set<string>, b: set<string>)
    requires a !! b
    ensures |a + b| == |a| + |b|
  {
  }

  /** Every record of the peer is counted exactly once. */
  lemma {:induction false} CountsAddUp(local: Services, remote: Services)
    ensures OutcomeCount(local, remote, Adopted) + OutcomeCount(local, remote, RemoteWon)
      + OutcomeCount(local, remote, LocalKept) == |remote|
  {
    OutcomesPartition(OutcomesOf(local, remote));
    assert OutcomesOf(local, remote).Keys == remote.Keys;
  }

  lemma {:induction false} OutcomeExactly(local: Services, remote: Services, id: string)
    requires id in remote && remote[id].serviceId == id
    ensures OutcomeOf(local, remote[id]) == Adopted <==> id !in local
    ensures OutcomeOf(local, remote[id]) == RemoteWon <==> id in local && Synced(local, remote)[id] == remote[id]
  {
  }

  /** The services of both sides whose record is the peer's after the pull. */
  ghost function Taken(local: Services, remote: Services): set<string> {
    set id | id in local.Keys * remote.Keys && Synced(local, remote)[id] == remote[id]
  }

  /** The counts of a pull: the services adopted, those whose record is now the peer's, those whose record is not,
      all the peer's, and all that are held afterwards. */
  lemma {:induction false} ReportExactly(local: Services, remote: Services)
    requires KeyedById(remote)
    ensures SyncReport(local, remote) == SyncCompleted(
      |remote.Keys - local.Keys|, |Taken(local, remote)|, |local.Keys * remote.Keys - Taken(local, remote)|,
      |remote|, |Synced(local, remote)|)
  {
    forall id | id in remote
      ensures OutcomeOf(local, remote[id]) == Adopted <==> id in remote.Keys - local.Keys
      ensures OutcomeOf(local, remote[id]) == RemoteWon <==> id in Taken(local, remote)
    {
      OutcomeExactly(local, remote, id);
    }
    CountExactly(local, remote, Adopted, remote.Keys - local.Keys);
    CountExactly(local, remote, RemoteWon, Taken(local, remote));
    CountExactly(local, remote, LocalKept, local.Keys * remote.Keys - Taken(local, remote));
  }

  lemma {:induction false} CountExactly(local: Services, remote: Services, outcome: MergeOutcome, ids: set<string>)
    requires ids <= remote.Keys
    requires forall id :: id in remote ==> (OutcomeOf(local, remote[id]) == outcome <==> id in ids)
    ensures OutcomeCount(local, remote, outcome) == |ids|
  {
    assert With(OutcomesOf(local, remote), outcome) == ids;
  }

  /** The records after a pull: the peer's where there was none or where it replaces the present one. */
  ghost predicate PulledInto(local: Services, remote: Services, after: Services) {
    && after.Keys == local.Keys + remote.Keys
    && (forall id :: id in remote && (id !in local || Replaces(local[id], remote[id])) ==> after[id] == remote[id])
    && (forall id :: id in local && (id !in remote || !Replaces(local[id], remote[id])) ==> after[id] == local[id])
  }

  lemma {:induction false} SyncedIsPulled(local: Services, remote: Services)
    ensures PulledInto(local, remote, Synced(local, remote))
  {
    forall id | id in local || id in remote {
      SyncedExactly(local, remote, id);
    }
  }

  lemma {:induction false} SizeEntry(before: set<string>, after: set<string>, id: string)
    requires id !in after && before - {id} == after
    ensures |before| == |after| + if id in before then 1 else 0
  {
    if id in before {
      assert before == after + {id};
    } else {
      assert before == after;
    }
  }

  function Counted(yes: bool): int {
    if yes then 1 else 0
  }

  /** Merging one record changes no other record's outcome. */
  lemma {:induction false} OtherOutcomesStay(services: Services, rest: Services, id: string)
    requires id in rest && KeyedById(rest)
    ensures OutcomesOf(Merge(services, rest[id]), rest - {id}) == OutcomesOf(services, rest) - {id}
  {
  }

  lemma {:induction false} CountWithout(outcomes: Outcomes, id: string, outcome: MergeOutcome)
    requires id in outcomes
    ensures |With(outcomes, outcome)| == |With(outcomes - {id}, outcome)| + Counted(outcomes[id] == outcome)
  {
    SizeEntry(With(outcomes, outcome), With(outcomes - {id}, outcome), id);
  }

  lemma {:induction false} OutcomeEntry(services: Services, rest: Services, id: string, outcome: MergeOutcome)
    requires id in rest && KeyedById(rest)
    ensures OutcomeCount(services, rest, outcome)
      == OutcomeCount(Merge(services, rest[id]), rest - {id}, outcome)
      + Counted(OutcomeOf(services, rest[id]) == outcome)
  {
    OtherOutcomesStay(services, rest, id);
    CountWithout(OutcomesOf(services, rest), id, outcome);
  }

  lemma {:induction false} NothingLeft(services: Services, outcome: MergeOutcome)
    ensures Synced(services, map[]) == services
    ensures OutcomeCount(services, map[], outcome) == 0
  {
    assert With(OutcomesOf(services, map[]), outcome) == {};
  }

  /** The count so far and what is still to be merged account for the whole pull. */
  ghost predicate Accounts(
      services: Services, rest: Services, outcome: MergeOutcome, count: int, local: Services, remote: Services)
  {
    count + OutcomeCount(services, rest, outcome) == OutcomeCount(local, remote, outcome)
  }

  lemma {:induction false} OneMoreMerged(
      services: Services, rest: Services, id: string, outcome: MergeOutcome, count: int, local: Services,
      remote: Services)
    requires id in rest && KeyedById(rest) && Accounts(services, rest, outcome, count, local, remote)
    ensures Accounts(
      Merge(services, rest[id]), rest - {id}, outcome, count + Counted(OutcomeOf(services, rest[id]) == outcome),
      local, remote)
  {
    OutcomeEntry(services, rest, id, outcome);
  }

  lemma {:induction false} AllMerged(
      services: Services, outcome: MergeOutcome, count: int, local: Services, remote: Services)
    requires Accounts(services, map[], outcome, count, local, remote)
    ensures count == OutcomeCount(local, remote, outcome)
  {
    NothingLeft(services, outcome);
  }

  // ---------------------------------------------------------------------------------------
  // Remembered nonces
  // ---------------------------------------------------------------------------------------

  ghost predicate NoRepeats<T>(s: seq<T>) {
    forall i, j :: 0 <= i < j < |s| ==> s[i] != s[j]
  }

  ghost function Elements(s: seq<string>): set<string> {
    set n | n in s
  }

  lemma {:induction false} SizeWithoutRepeats(s: seq<string>)
    requires NoRepeats(s)
    ensures |Elements(s)| == |s|
  {
    if s != [] {
      var front, last := s[..|s| - 1], s[|s| - 1];
      SizeWithoutRepeats(front);
      assert Elements(s) == Elements(front) + {last};
    }
  }

  lemma {:induction false} OldestDropped(order: seq<string>)
    requires NoRepeats(order) && order != []
    ensures NoRepeats(order[1..])
    ensures Elements(order[1..]) == Elements(order) - {order[0]}
  {
    assert order == [order[0]] + order[1..];
    assert order[0] !in order[1..];
  }

  // ---------------------------------------------------------------------------------------
  // The node
  // ---------------------------------------------------------------------------------------

  class FederatedRegistryNode {
    const nodeId: NodeId
    const maxSeenNonces: nat
    const hashOf: string -> string
    var peers: map<NodeId, FederatedRegistryNode>
    var vectorClock: Clock
    var seenNonces: set<string>
    var nonceOrder: seq<string>
    var services: Services

    ghost predicate Valid()
      reads this
    {
      && NoRepeats(nonceOrder) && |nonceOrder| <= maxSeenNonces
      && seenNonces == Elements(nonceOrder)
      && KeyedById(services)
    }

    ghost function State(): NodeState
      reads this
    {
      NodeState(nodeId, peers.Keys, vectorClock, nonceOrder, services)
    }

    constructor (nodeId: NodeId, maxSeenNonces: nat, hashOf: string -> string)
      ensures Valid()
      ensures State() == NodeState(nodeId, {}, map[nodeId := 0], [], map[])
      ensures this.maxSeenNonces == maxSeenNonces
    {
      this.nodeId, this.maxSeenNonces, this.hashOf := nodeId, maxSeenNonces, hashOf;
      peers, vectorClock := map[], map[nodeId := 0];
      seenNonces, nonceOrder, services := {}, [], map[];
    }

    method AddPeer(peer: FederatedRegistryNode)
      requires Valid()
      modifies this`peers, this`vectorClock
      ensures Valid()
      ensures peers == old(peers)[peer.nodeId := peer]
      ensures vectorClock
        == if peer.nodeId in old(vectorClock) then old(vectorClock) else old(vectorClock)[peer.nodeId := 0]
    {
      peers := peers[peer.nodeId := peer];
      if peer.nodeId !in vectorClock {
        vectorClock := vectorClock[peer.nodeId := 0];
      }
    }

    method RemovePeer(peerId: NodeId)
      requires Valid()
      modifies this`peers
      ensures Valid() && peers == old(peers) - {peerId}
    {
      peers := peers - {peerId};
    }

    method IncrementClock()
      requires Valid()
      modifies this`vectorClock
      ensures Valid() && State() == Tick(old(State()))
    {
      vectorClock := vectorClock[nodeId := (if nodeId in vectorClock then vectorClock[nodeId] else 0) + 1];
    }

    method CreateEvent(payload: Payload, nonce: string) returns (event: FederationEvent)
      ensures event == EventOf(State(), payload, nonce)
      ensures event == FederationEvent(nodeId, payload, vectorClock, nonce)
    {
      event := FederationEvent(nodeId, payload, vectorClock, nonce);
    }

    /** Registers locally; the event returned, if any, is the one broadcast to the peers. */
    method RegisterService(record: ServiceRecord, nonce: string) returns (event: Option<FederationEvent>)
      requires Valid()
      modifies this`services, this`vectorClock
      ensures Valid()
      ensures record.serviceId in old(services) && old(services)[record.serviceId].version == record.version ==>
        event == None && State() == old(State())
      ensures record.serviceId !in old(services) || old(services)[record.serviceId].version != record.version ==>
        && State() == Tick(old(State()).(services := old(services)[record.serviceId := record]))
        && event == Some(EventOf(State(), Registered(record), nonce))
    {
      if record.serviceId in services && services[record.serviceId].version == record.version {
        return None;
      }
      services := services[record.serviceId := record];
      IncrementClock();
      var created := CreateEvent(Registered(record), nonce);
      event := Some(created);
    }

    /** The removal is broadcast whether or not the service was known. */
    method RevokeService(serviceId: string, nonce: string) returns (event: FederationEvent)
      requires Valid()
      modifies this`services, this`vectorClock
      ensures Valid()
      ensures State() == Tick(old(State()).(services := old(services) - {serviceId}))
      ensures event == EventOf(State(), Removed(serviceId), nonce)
    {
      RemoveService(serviceId);
      IncrementClock();
      event := CreateEvent(Removed(serviceId), nonce);
    }

    method RemoveService(serviceId: string)
      requires Valid()
      modifies this`services
      ensures Valid() && services == old(services) - {serviceId}
    {
      if serviceId in services {
        services := services - {serviceId};
      }
    }

    /** Overwrites whatever the registry holds under the record's id. */
    method MergeRemoteService(record: ServiceRecord)
      requires KeyedById(services)
      modifies this`services
      ensures KeyedById(services) && services == old(services)[record.serviceId := record]
    {
      services := services[record.serviceId := record];
    }

    method HandleRemoteRegistration(record: ServiceRecord)
      requires Valid()
      modifies this`services
      ensures Valid() && services == Merge(old(services), record)
      ensures record.serviceId !in old(services) || Replaces(old(services)[record.serviceId], record) ==>
        services == old(services)[record.serviceId := record]
      ensures record.serviceId in old(services) && !Replaces(old(services)[record.serviceId], record) ==>
        services == old(services)
    {
      MergeExactly(services, record);
      var _ := MergeOne(record);
    }

    /** Remembers a new nonce and forgets the oldest ones beyond the cap. */
    method RememberNonce(nonce: string)
      requires Valid() && nonce !in seenNonces
      modifies this`seenNonces, this`nonceOrder
      ensures Valid()
      ensures nonceOrder == LastN(old(nonceOrder) + [nonce], maxSeenNonces)
    {
      seenNonces := seenNonces + {nonce};
      nonceOrder := nonceOrder + [nonce];
      assert seenNonces == Elements(nonceOrder);
      SizeWithoutRepeats(nonceOrder);
      if |seenNonces| > maxSeenNonces {
        EvictOldest(|seenNonces| - maxSeenNonces);
      }
    }

    method EvictOldest(evictCount: nat)
      requires NoRepeats(nonceOrder) && seenNonces == Elements(nonceOrder)
      requires evictCount <= |nonceOrder|
      modifies this`seenNonces, this`nonceOrder
      ensures NoRepeats(nonceOrder) && seenNonces == Elements(nonceOrder)
      ensures nonceOrder == old(nonceOrder)[evictCount..]
    {
      for i := 0 to evictCount
        invariant nonceOrder == old(nonceOrder)[i..]
        invariant NoRepeats(nonceOrder) && seenNonces == Elements(nonceOrder)
      {
        OldestDropped(nonceOrder);
        var oldNonce := nonceOrder[0];
        nonceOrder := nonceOrder[1..];
        seenNonces := seenNonces - {oldNonce};
      }
    }

    method MergeClock(clock: Clock)
      modifies this`vectorClock
      ensures vectorClock == MergedClock(old(vectorClock), clock)
    {
      var rest := clock;
      while rest != map[]
        invariant MergedClock(vectorClock, rest) == MergedClock(old(vectorClock), clock)
        decreases rest.Keys
      {
        var id :| id in rest;
        MergeClockEntry(vectorClock, rest, id);
        var known := if id in vectorClock then vectorClock[id] else 0;
        vectorClock := vectorClock[id := Max(known, rest[id])];
        rest := rest - {id};
      }
      NoClockLeft(vectorClock);
    }

    method ReceiveFederationEvent(event: FederationEvent)
      requires Valid()
      modifies this`seenNonces, this`nonceOrder, this`vectorClock, this`services
      ensures Valid() && State() == Receive(maxSeenNonces, old(State()), event)
      ensures event.nonce in old(nonceOrder) ==> State() == old(State())
      ensures event.nonce !in old(nonceOrder) ==>
        match event.payload
        case Registered(record) =>
          services == (
            if record.serviceId in old(services) && !Replaces(old(services)[record.serviceId], record)
            then old(services) else old(services)[record.serviceId := record])
        case Removed(serviceId) => services == (if serviceId == "" then old(services) else old(services) - {serviceId})
        case NoRecord => services == old(services)
        case SyncCompleted(_, _, _, _, _) => services == old(services)
    {
      if event.nonce in seenNonces {
        return;
      }
      RememberNonce(event.nonce);
      MergeClock(event.clock);
      match event.payload {
        case Registered(record) => HandleRemoteRegistration(record);
        case NoRecord =>
        case Removed(serviceId) =>
          if serviceId != "" {
            RemoveService(serviceId);
          }
        case SyncCompleted(_, _, _, _, _) =>
      }
    }

    /** Pulls and merges every record of a peer. None stands for PEER_NOT_FOUND. */
    method SyncWithPeer(peerId: NodeId, nonce: string) returns (event: Option<FederationEvent>)
      requires Valid() && (peerId in peers ==> peers[peerId].Valid())
      modifies this`services, this`vectorClock
      ensures Valid()
      ensures peerId !in peers ==> event == None && State() == old(State())
      ensures peerId in peers ==>
        var remote := old(peers[peerId].services);
        && State() == Tick(old(State()).(services := Synced(old(services), remote)))
        && event == Some(EventOf(State(), SyncReport(old(services), remote), nonce))
      ensures peerId in peers ==> PulledInto(old(services), old(peers[peerId].services), services)
    {
      if peerId !in peers {
        return None;
      }
      SyncedIsPulled(services, peers[peerId].services);
      var report := PullServices(peers[peerId].services);
      IncrementClock();
      var created := CreateEvent(report, nonce);
      event := Some(created);
    }

    method MergeOne(remoteRecord: ServiceRecord) returns (outcome: MergeOutcome)
      requires KeyedById(services)
      modifies this`services
      ensures KeyedById(services)
      ensures services == Merge(old(services), remoteRecord)
      ensures outcome == OutcomeOf(old(services), remoteRecord)
    {
      var sid := remoteRecord.serviceId;
      if sid !in services {
        MergeRemoteService(remoteRecord);
        return Adopted;
      }
      var winner := Resolve(hashOf, services[sid], remoteRecord);
      ResolveIsWinner(hashOf, services[sid], remoteRecord);
      if winner.registrationTimestamp == remoteRecord.registrationTimestamp {
        MergeRemoteService(remoteRecord);
        return RemoteWon;
      }
      outcome := LocalKept;
    }

    method PullServices(remote: Services) returns (report: Payload)
      requires KeyedById(services) && KeyedById(remote)
      modifies this`services
      ensures KeyedById(services)
      ensures services == Synced(old(services), remote)
      ensures report == SyncReport(old(services), remote)
    {
      var merged, conflictsResolved, skipped := 0, 0, 0;
      var rest := remote;
      while rest != map[]
        invariant KeyedById(services) && KeyedById(rest)
        invariant Synced(services, rest) == Synced(old(services), remote)
        invariant Accounts(services, rest, Adopted, merged, old(services), remote)
        invariant Accounts(services, rest, RemoteWon, conflictsResolved, old(services), remote)
        invariant Accounts(services, rest, LocalKept, skipped, old(services), remote)
        decreases rest.Keys
      {
        var sid :| sid in rest;
        SyncEntry(services, rest, sid);
        OneMoreMerged(services, rest, sid, Adopted, merged, old(services), remote);
        OneMoreMerged(services, rest, sid, RemoteWon, conflictsResolved, old(services), remote);
        OneMoreMerged(services, rest, sid, LocalKept, skipped, old(services), remote);
        var outcome := MergeOne(rest[sid]);
        merged := merged + if outcome == Adopted then 1 else 0;
        conflictsResolved := conflictsResolved + if outcome == RemoteWon then 1 else 0;
        skipped := skipped + if outcome == LocalKept then 1 else 0;
        rest := rest - {sid};
      }
      NothingLeft(services, Adopted);
      AllMerged(services, Adopted, merged, old(services), remote);
      AllMerged(services, RemoteWon, conflictsResolved, old(services), remote);
      AllMerged(services, LocalKept, skipped, old(services), remote);
      report := SyncCompleted(merged, conflictsResolved, skipped, |remote|, |services|);
    }
  }
}
