/** ConsensusEngine.run_consensus, loop by loop. The sequences of ids beside the maps keep the insertion
    order of the dictionaries. */
module ConsensusEngine {
  import opened Wrappers
  import opened Consensus

  /** The sequence holds exactly these ids, each once. */
  ghost predicate Lists(order: seq<string>, ids: set<string>) {
    && (forall i, j :: 0 <= i < j < |order| ==> order[i] != order[j])
    && (forall id :: id in order <==> id in ids)
  }

  lemma {:induction false} OneMoreListed(order: seq<string>, ids: set<string>, id: string)
    requires Lists(order, ids) && id !in ids
    ensures Lists(order + [id], ids + {id})
  {
  }

  lemma {:induction false} KeysAfterUpdate(attestations: Attestations, id: string, attestation: NodeAttestation)
    ensures attestations[id := attestation].Keys == attestations.Keys + {id}
    ensures id in attestations ==> attestations.Keys + {id} == attestations.Keys
    ensures attestations[id := attestation] != map[]
  {
    assert id in attestations[id := attestation];
  }

  ghost function Present(nodes: seq<ConsensusNode>, setting: Setting): seq<string> {
    if nodes == [] then []
    else
      var last, before := nodes[|nodes| - 1].id, Present(nodes[..|nodes| - 1], setting);
      if setting.missing == Some(last) then before else before + [last]
  }

  ghost function IdsInOrder(nodes: seq<ConsensusNode>): seq<string> {
    seq(|nodes|, i requires 0 <= i < |nodes| => nodes[i].id)
  }

  lemma {:induction false} LastIdInOrder(nodes: seq<ConsensusNode>)
    requires nodes != []
    ensures IdsInOrder(nodes) == IdsInOrder(nodes[..|nodes| - 1]) + [nodes[|nodes| - 1].id]
  {
  }

  /** All nodes take part but not the missing one. */
  lemma {:induction false} AllButMissing(nodes: seq<ConsensusNode>, setting: Setting, id: string)
    ensures multiset(Present(nodes, setting))[id]
      == if setting.missing == Some(id) then 0 else multiset(IdsInOrder(nodes))[id]
  {
    if nodes != [] {
      AllButMissing(nodes[..|nodes| - 1], setting, id);
      LastIdInOrder(nodes);
    }
  }

  /** They are listed in their order. */
  lemma {:induction false} AllInOrder(nodes: seq<ConsensusNode>, setting: Setting)
    requires setting.missing == None
    ensures Present(nodes, setting) == IdsInOrder(nodes)
  {
    if nodes != [] {
      AllInOrder(nodes[..|nodes| - 1], setting);
      LastIdInOrder(nodes);
    }
  }

  ghost function MissingReasons(nodes: seq<ConsensusNode>, setting: Setting): map<string, string> {
    map id | id in Ids(nodes) && setting.missing == Some(id) :: "MISSING_PARTICIPANT"
  }

  lemma {:induction false} OneMoreNode(nodes: seq<ConsensusNode>, setting: Setting, i: nat)
    requires i < |nodes|
    ensures
      var id, before, after := nodes[i].id, nodes[..i], nodes[..i + 1];
      var missing := setting.missing == Some(id);
      && Collected(after, setting)
         == (if missing then Collected(before, setting) else Collected(before, setting)[id := Cast(nodes[i], setting)])
      && Present(after, setting) == (if missing then Present(before, setting) else Present(before, setting) + [id])
      && MissingReasons(after, setting)
         == (if missing then MissingReasons(before, setting)[id := "MISSING_PARTICIPANT"]
             else MissingReasons(before, setting))
  {
    assert nodes[..i + 1][..i] == nodes[..i];
    var before, after := nodes[..i], nodes[..i + 1];
    assert Ids(after) == Ids(before) + {nodes[i].id} by {
      forall id | id in Ids(before)
        ensures id in Ids(after)
      {
        var k :| 0 <= k < |before| && before[k].id == id;
        assert after[k].id == id;
      }
      assert after[i].id in Ids(after);
    }
  }

  method CollectAttestations(nodes: seq<ConsensusNode>, setting: Setting)
    returns (participating: seq<string>, attestations: Attestations, order: seq<string>,
      disagreements: map<string, string>)
    ensures participating == Present(nodes, setting) && (participating == [] <==> attestations == map[])
    ensures attestations == Collected(nodes, setting)
    ensures Lists(order, attestations.Keys)
    ensures disagreements == MissingReasons(nodes, setting)
  {
    participating, attestations, order, disagreements := [], map[], [], map[];
    for i := 0 to |nodes|
      invariant participating == Present(nodes[..i], setting) && (participating == [] <==> attestations == map[])
      invariant attestations == Collected(nodes[..i], setting)
      invariant Lists(order, attestations.Keys)
      invariant disagreements == MissingReasons(nodes[..i], setting)
    {
      OneMoreNode(nodes, setting, i);
      var nid := nodes[i].id;
      if setting.missing == Some(nid) {
        disagreements := disagreements[nid := "MISSING_PARTICIPANT"];
      } else {
        participating := participating + [nid];
        if nid !in attestations {
          OneMoreListed(order, attestations.Keys, nid);
          order := order + [nid];
        }
        KeysAfterUpdate(attestations, nid, Cast(nodes[i], setting));
        attestations := attestations[nid := Cast(nodes[i], setting)];
      }
    }
    assert nodes[..|nodes|] == nodes;
  }

  ghost function Verified(attestations: Attestations, setting: Setting): set<string> {
    set id | id in attestations && SignatureOk(attestations[id], setting)
  }

  ghost function InvalidReasons(attestations: Attestations, setting: Setting): map<string, string> {
    map id | id in attestations && !SignatureOk(attestations[id], setting) :: "ATTESTATION_SIGNATURE_INVALID"
  }

  method VerifySignatures(order: seq<string>, attestations: Attestations, setting: Setting)
    returns (verified: seq<string>, invalid: map<string, string>)
    requires Lists(order, attestations.Keys)
    ensures Lists(verified, Verified(attestations, setting))
    ensures invalid == InvalidReasons(attestations, setting)
  {
    verified, invalid := [], map[];
    for i := 0 to |order|
      invariant forall j, k :: 0 <= j < k < |verified| ==> verified[j] != verified[k]
      invariant forall id :: id in verified <==> id in order[..i] && SignatureOk(attestations[id], setting)
      invariant forall id :: id in invalid <==> id in order[..i] && !SignatureOk(attestations[id], setting)
      invariant forall id :: id in invalid ==> invalid[id] == "ATTESTATION_SIGNATURE_INVALID"
    {
      var nid := order[i];
      if SignatureOk(attestations[nid], setting) {
        verified := verified + [nid];
      } else {
        invalid := invalid[nid := "ATTESTATION_SIGNATURE_INVALID"];
      }
    }
  }

  lemma {:induction false} VerifiedAreCast(verified: seq<string>, attestations: Attestations, setting: Setting)
    requires Lists(verified, Verified(attestations, setting))
    ensures forall i :: 0 <= i < |verified| ==> verified[i] in attestations
    ensures forall id :: id in verified <==> id in Verified(attestations, setting)
  {
    forall i | 0 <= i < |verified|
      ensures verified[i] in attestations
    {
      assert verified[i] in Verified(attestations, setting);
    }
  }

  /** The ids in the sequence whose attestations count for a hash. */
  ghost function VotersAmong(ids: seq<string>, attestations: Attestations, hash: string): set<string> {
    set id | id in ids && id in attestations && Counts(attestations[id]) && attestations[id].agreementHash == hash
  }

  lemma {:induction false} OneMoreVoter(ids: seq<string>, i: nat, attestations: Attestations, hash: string)
    requires i < |ids| && ids[i] !in ids[..i] && ids[i] in attestations
    ensures |VotersAmong(ids[..i + 1], attestations, hash)| == |VotersAmong(ids[..i], attestations, hash)|
      + if Counts(attestations[ids[i]]) && attestations[ids[i]].agreementHash == hash then 1 else 0
  {
    var before, after := VotersAmong(ids[..i], attestations, hash), VotersAmong(ids[..i + 1], attestations, hash);
    assert ids[..i + 1] == ids[..i] + [ids[i]];
    if Counts(attestations[ids[i]]) && attestations[ids[i]].agreementHash == hash {
      assert after == before + {ids[i]};
    } else {
      assert after == before;
    }
  }

  /** The counts say, for each hash that has voters, how many. */
  ghost predicate Tallies(counts: map<string, int>, ids: seq<string>, attestations: Attestations) {
    forall h :: (if h in counts then counts[h] else 0) == |VotersAmong(ids, attestations, h)|
      && (h in counts ==> counts[h] > 0)
  }

  function Tallied(counts: map<string, int>, attestation: NodeAttestation): map<string, int> {
    var h := attestation.agreementHash;
    if Counts(attestation) then counts[h := (if h in counts then counts[h] else 0) + 1] else counts
  }

  lemma {:induction false} OneMoreTally(ids: seq<string>, i: nat, attestations: Attestations, counts: map<string, int>)
    requires i < |ids| && ids[i] !in ids[..i] && ids[i] in attestations
    requires Tallies(counts, ids[..i], attestations)
    ensures Tallies(Tallied(counts, attestations[ids[i]]), ids[..i + 1], attestations)
  {
    forall h {
      OneMoreVoter(ids, i, attestations, h);
    }
  }

  lemma {:induction false} AllVoters(verified: seq<string>, attestations: Attestations, setting: Setting)
    requires Lists(verified, Verified(attestations, setting))
    ensures forall h :: VotersAmong(verified, attestations, h) == Voters(attestations, setting, h)
  {
    VerifiedAreCast(verified, attestations, setting);
  }

  method CountVotes(verified: seq<string>, attestations: Attestations, setting: Setting)
    returns (hashes: seq<string>, counts: map<string, int>)
    requires Lists(verified, Verified(attestations, setting))
    ensures Lists(hashes, counts.Keys)
    ensures forall h :: (if h in counts then counts[h] else 0) == |Voters(attestations, setting, h)|
    ensures forall h :: h in counts ==> counts[h] > 0
  {
    hashes, counts := [], map[];
    VerifiedAreCast(verified, attestations, setting);
    for i := 0 to |verified|
      invariant Lists(hashes, counts.Keys)
      invariant Tallies(counts, verified[..i], attestations)
    {
      assert verified[i] !in verified[..i];
      OneMoreTally(verified, i, attestations, counts);
      var attestation := attestations[verified[i]];
      var h := attestation.agreementHash;
      if Counts(attestation) {
        if h !in counts {
          OneMoreListed(hashes, counts.Keys, h);
          hashes := hashes + [h];
        }
        assert counts[h := 0].Keys == counts.Keys + {h};
        counts := counts[h := (if h in counts then counts[h] else 0) + 1];
      }
    }
    assert verified[..|verified|] == verified;
    AllVoters(verified, attestations, setting);
  }

  /** The hash is the first in insertion order among those with most votes. */
  ghost predicate FirstLargest(hashes: seq<string>, counts: map<string, int>, majority: string, k: nat)
    requires k < |hashes| && majority in counts && forall h :: h in hashes ==> h in counts
  {
    hashes[k] == majority && forall j :: 0 <= j < k ==> counts[hashes[j]] < counts[majority]
  }

  method PickMajority(hashes: seq<string>, counts: map<string, int>) returns (majority: string)
    requires hashes != [] && Lists(hashes, counts.Keys)
    ensures majority in counts && forall h :: h in counts ==> counts[h] <= counts[majority]
    ensures exists k :: 0 <= k < |hashes| && FirstLargest(hashes, counts, majority, k)
  {
    var best: nat := 0;
    assert forall h :: h in hashes ==> h in counts;
    for i := 1 to |hashes|
      invariant best < i
      invariant forall j :: 0 <= j < i ==> counts[hashes[j]] <= counts[hashes[best]]
      invariant forall j :: 0 <= j < best ==> counts[hashes[j]] < counts[hashes[best]]
    {
      if counts[hashes[i]] > counts[hashes[best]] {
        best := i;
      }
    }
    majority := hashes[best];
    forall h | h in counts
      ensures counts[h] <= counts[majority]
    {
      assert h in hashes;
    }
    assert FirstLargest(hashes, counts, majority, best);
  }

  function Reason(attestation: NodeAttestation): string {
    if attestation.status != "OK" then attestation.status
    else
      var h := attestation.agreementHash;
      "DIVERGENT_HASH:" + h[..if |h| < 8 then |h| else 8]
  }

  ghost function DivergentReasons(attestations: Attestations, setting: Setting, majority: string): map<string, string> {
    map id | id in Verified(attestations, setting) && attestations[id].agreementHash != majority ::
      Reason(attestations[id])
  }

  method ReportDivergence(verified: seq<string>, attestations: Attestations, setting: Setting, majority: string)
    returns (divergent: map<string, string>)
    requires Lists(verified, Verified(attestations, setting))
    ensures divergent == DivergentReasons(attestations, setting, majority)
  {
    divergent := map[];
    VerifiedAreCast(verified, attestations, setting);
    for i := 0 to |verified|
      invariant forall id :: id in divergent <==>
        id in verified[..i] && id in attestations && attestations[id].agreementHash != majority
      invariant forall id :: id in divergent ==> id in attestations && divergent[id] == Reason(attestations[id])
    {
      var nid := verified[i];
      if attestations[nid].agreementHash != majority {
        divergent := divergent[nid := Reason(attestations[nid])];
      }
    }
  }

  ghost function Statuses(attestations: Attestations, setting: Setting): map<string, string> {
    map id | id in Verified(attestations, setting) :: attestations[id].status
  }

  /** The votes for a hash as a share of all the engine's nodes. */
  ghost function Share(nodes: seq<ConsensusNode>, setting: Setting, hash: string): real
    requires nodes != []
  {
    |Voters(Collected(nodes, setting), setting, hash)| as real / |nodes| as real
  }

  /** No hash has more votes. */
  ghost predicate Leads(nodes: seq<ConsensusNode>, setting: Setting, hash: string) {
    && nodes != [] && Voters(Collected(nodes, setting), setting, hash) != {}
    && forall h :: Share(nodes, setting, h) <= Share(nodes, setting, hash)
  }

  ghost function Unusable(nodes: seq<ConsensusNode>, setting: Setting): map<string, string> {
    MissingReasons(nodes, setting) + InvalidReasons(Collected(nodes, setting), setting)
  }

  /** Every node is accounted for once: missing, not validly signed, or of another hash than the leading one; then
      its status says why, or if that is OK the start of its hash. */
  lemma {:induction false} EveryReason(nodes: seq<ConsensusNode>, setting: Setting, leader: string, id: string)
    ensures
      var cast := Collected(nodes, setting);
      var reasons := Unusable(nodes, setting) + DivergentReasons(cast, setting, leader);
      var missing := setting.missing == Some(id) && exists k :: 0 <= k < |nodes| && nodes[k].id == id;
      var signed := id in cast && setting.verify(cast[id].publicKey, cast[id].agreementHash, cast[id].signature);
      && (id in reasons <==> missing || (id in cast && (!signed || cast[id].agreementHash != leader)))
      && (missing ==> reasons[id] == "MISSING_PARTICIPANT" && id !in cast)
      && (id in cast && !signed ==> reasons[id] == "ATTESTATION_SIGNATURE_INVALID")
      && (signed && cast[id].agreementHash != leader ==>
           && (cast[id].status != "OK" ==> reasons[id] == cast[id].status)
           && (cast[id].status == "OK" && |cast[id].agreementHash| > 8 ==>
                 reasons[id] == "DIVERGENT_HASH:" + cast[id].agreementHash[..8])
           && (cast[id].status == "OK" && |cast[id].agreementHash| <= 8 ==>
                 reasons[id] == "DIVERGENT_HASH:" + cast[id].agreementHash))
  {
    CollectedFromIds(nodes, setting);
    assert id in Ids(nodes) <==> exists k :: 0 <= k < |nodes| && nodes[k].id == id;
  }

  /** Without any vote the status of each validly signed attestation is reported. */
  lemma {:induction false} EveryReasonWithoutVotes(nodes: seq<ConsensusNode>, setting: Setting, id: string)
    ensures
      var cast := Collected(nodes, setting);
      var reasons := Unusable(nodes, setting) + Statuses(cast, setting);
      var missing := setting.missing == Some(id) && exists k :: 0 <= k < |nodes| && nodes[k].id == id;
      var signed := id in cast && setting.verify(cast[id].publicKey, cast[id].agreementHash, cast[id].signature);
      && (id in reasons <==> missing || id in cast)
      && (missing ==> reasons[id] == "MISSING_PARTICIPANT" && id !in cast)
      && (id in cast && !signed ==> reasons[id] == "ATTESTATION_SIGNATURE_INVALID")
      && (signed ==> reasons[id] == cast[id].status)
  {
    CollectedFromIds(nodes, setting);
    assert id in Ids(nodes) <==> exists k :: 0 <= k < |nodes| && nodes[k].id == id;
  }

  /** What the proof says when some hash got votes: the leading hash decides, if any does. */
  ghost predicate ReportsLeader(proof: ConsensusProof, nodes: seq<ConsensusNode>, setting: Setting, leader: string)
    requires nodes != []
  {
    && Leads(nodes, setting, leader)
    && proof.agreementPercentage == Share(nodes, setting, leader)
    && proof.finalHash == (if proof.reached then leader else NO_CONSENSUS)
    && proof.disagreements
       == Unusable(nodes, setting) + DivergentReasons(Collected(nodes, setting), setting, leader)
  }

  /** What it says when none did. */
  ghost predicate ReportsNoVotes(proof: ConsensusProof, nodes: seq<ConsensusNode>, setting: Setting) {
    && (forall h :: Voters(Collected(nodes, setting), setting, h) == {})
    && proof.agreementPercentage == 0.0 && !proof.reached
    && proof.finalHash == (if proof.participating == [] then "" else NO_CONSENSUS)
    && proof.disagreements == Unusable(nodes, setting) + Statuses(Collected(nodes, setting), setting)
  }

  /** Of all the engine's nodes the share of those that vote for the hash meets the threshold. */
  ghost predicate HasShare(nodes: seq<ConsensusNode>, attestations: Attestations, setting: Setting, hash: string) {
    nodes != [] && |Supporters(attestations, setting.verify, hash)| as real / |nodes| as real >= setting.threshold
  }

  lemma {:induction false} DecidesByShare(nodes: seq<ConsensusNode>, setting: Setting)
    ensures forall h :: Decides(nodes, setting, h) <==> HasShare(nodes, Collected(nodes, setting), setting, h)
  {
    forall h
      ensures Decides(nodes, setting, h) <==> HasShare(nodes, Collected(nodes, setting), setting, h)
    {
      VotersAreSupporters(Collected(nodes, setting), setting, h);
      if nodes != [] {
        ShareMeetsThreshold(|nodes|, |Voters(Collected(nodes, setting), setting, h)|, setting.threshold);
      }
    }
  }

  method RunConsensus(nodes: seq<ConsensusNode>, setting: Setting) returns (proof: ConsensusProof)
    requires setting.Valid()
    ensures proof.quorumSize == Quorum(|nodes|, setting.threshold)
    ensures proof.consensusRound == setting.consensusRound
    ensures proof.participating == Present(nodes, setting) && proof.attestations == Collected(nodes, setting)
    ensures proof.reached <==> exists h :: Decides(nodes, setting, h)
    ensures proof.reached <==> exists h :: HasShare(nodes, proof.attestations, setting, h)
    ensures proof.reached ==> HasShare(nodes, proof.attestations, setting, proof.finalHash)
    ensures proof.reached ==> Decides(nodes, setting, proof.finalHash)
    ensures !proof.reached ==> proof.finalHash == (if proof.participating == [] then "" else "NO_CONSENSUS")
    ensures ReportsNoVotes(proof, nodes, setting)
      || (nodes != [] && exists h :: ReportsLeader(proof, nodes, setting, h))
  {
    DecidesByShare(nodes, setting);
    var quorumSize := Quorum(|nodes|, setting.threshold);
    var participating, attestations, order, disagreements := CollectAttestations(nodes, setting);
    if participating == [] {
      NobodyDecides(nodes, setting);
      proof := ConsensusProof([], "", 0.0, false, disagreements, setting.consensusRound, quorumSize, map[]);
      assert ReportsNoVotes(proof, nodes, setting);
      return;
    }
    var verified, invalid := VerifySignatures(order, attestations, setting);
    disagreements := disagreements + invalid;
    var hashes, counts := CountVotes(verified, attestations, setting);
    if hashes == [] {
      NoHashNoVotes(counts, attestations, setting);
      NobodyDecides(nodes, setting);
      var statuses := ReportStatuses(verified, attestations, setting);
      proof := ConsensusProof(
        participating, NO_CONSENSUS, 0.0, false, disagreements + statuses, setting.consensusRound, quorumSize,
        attestations);
      assert ReportsNoVotes(proof, nodes, setting);
      return;
    }
    var majority := PickMajority(hashes, counts);
    MajorityLeads(nodes, setting, counts, majority);
    LeaderDecides(nodes, setting, majority);
    var share := counts[majority] as real / |nodes| as real;
    var divergent := ReportDivergence(verified, attestations, setting, majority);
    var reached := share >= setting.threshold;
    proof := ConsensusProof(
      participating, if reached then majority else NO_CONSENSUS, share, reached, disagreements + divergent,
      setting.consensusRound, quorumSize, attestations);
    assert ReportsLeader(proof, nodes, setting, majority);
  }

  method ReportStatuses(verified: seq<string>, attestations: Attestations, setting: Setting)
    returns (statuses: map<string, string>)
    requires Lists(verified, Verified(attestations, setting))
    ensures statuses == Statuses(attestations, setting)
  {
    statuses := map[];
    VerifiedAreCast(verified, attestations, setting);
    for i := 0 to |verified|
      invariant forall id :: id in statuses <==> id in verified[..i]
      invariant forall id :: id in statuses ==> id in attestations && statuses[id] == attestations[id].status
    {
      statuses := statuses[verified[i] := attestations[verified[i]].status];
    }
  }

  lemma {:induction false} NoHashNoVotes(counts: map<string, int>, attestations: Attestations, setting: Setting)
    requires Lists([], counts.Keys)
    requires forall h :: (if h in counts then counts[h] else 0) == |Voters(attestations, setting, h)|
    ensures forall h :: Voters(attestations, setting, h) == {}
  {
    forall h
      ensures Voters(attestations, setting, h) == {}
    {
      assert h !in counts;
    }
  }

  lemma {:induction false} NobodyDecides(nodes: seq<ConsensusNode>, setting: Setting)
    requires setting.Valid()
    requires forall h :: Voters(Collected(nodes, setting), setting, h) == {}
    ensures !exists h :: Decides(nodes, setting, h)
  {
    if nodes != [] {
      QuorumIsMajority(|nodes|, setting.threshold);
    }
  }

  lemma {:induction false} MajorityLeads(
      nodes: seq<ConsensusNode>, setting: Setting, counts: map<string, int>, majority: string)
    requires majority in counts && counts[majority] > 0
    requires forall h :: (if h in counts then counts[h] else 0) == |Voters(Collected(nodes, setting), setting, h)|
    requires forall h :: h in counts ==> counts[h] <= counts[majority]
    ensures nodes != []
    ensures Leads(nodes, setting, majority)
    ensures Share(nodes, setting, majority) == counts[majority] as real / |nodes| as real
  {
    forall h
      ensures Share(nodes, setting, h) <= Share(nodes, setting, majority)
    {
      var n, c, d := |nodes| as real, |Voters(Collected(nodes, setting), setting, h)|, counts[majority];
      assert c <= d;
      DividingKeepsOrder(c as real, d as real, n);
    }
  }

  lemma {:induction false} DividingKeepsOrder(x: real, y: real, n: real)
    requires x <= y && n > 0.0
    ensures x / n <= y / n
  {
  }

  /** The leader's share meets the threshold exactly when some hash has a quorum of votes. */
  lemma {:induction false} LeaderDecides(nodes: seq<ConsensusNode>, setting: Setting, leader: string)
    requires Leads(nodes, setting, leader)
    ensures Share(nodes, setting, leader) >= setting.threshold <==> Decides(nodes, setting, leader)
    ensures (exists h :: Decides(nodes, setting, h)) <==> Decides(nodes, setting, leader)
  {
    var votes := Collected(nodes, setting);
    ShareMeetsThreshold(|nodes|, |Voters(votes, setting, leader)|, setting.threshold);
    forall h | Decides(nodes, setting, h)
      ensures Decides(nodes, setting, leader)
    {
      ShareMeetsThreshold(|nodes|, |Voters(votes, setting, h)|, setting.threshold);
      assert Share(nodes, setting, h) <= Share(nodes, setting, leader);
    }
  }
}
