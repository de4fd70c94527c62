/** consensus_simulation.py: counting signed attestations, and what a quorum guarantees. */
module Consensus {
  import opened Wrappers

  datatype NodeAttestation = NodeAttestation(
    nodeId: string,
    agreementHash: string,
    status: string,
    signature: string,
    publicKey: string)

  /** A node, what it attests when it processes the contract, and its signature over the hash that fault
      injection substitutes. */
  datatype ConsensusNode = ConsensusNode(id: string, attestation: NodeAttestation, faultySignature: string)

  type Attestations = map<string, NodeAttestation>

  /** What varies between runs besides the nodes. `verify` takes public key, signed text, signature. */
  datatype Setting = Setting(
    threshold: real,
    faulty: Option<string>,
    missing: Option<string>,
    faultyHash: string,
    verify: (string, string, string) -> bool,
    consensusRound: int)
  {
    /** The range that config.py enforces. */
    ghost predicate Valid() {
      0.5 < threshold <= 1.0
    }
  }

  datatype ConsensusProof = ConsensusProof(
    participating: seq<string>,
    finalHash: string,
    agreementPercentage: real,
    reached: bool,
    disagreements: map<string, string>,
    consensusRound: int,
    quorumSize: int,
    attestations: Attestations)

  const NO_CONSENSUS := "NO_CONSENSUS"

  // ---------------------------------------------------------------------------------------
  // Votes
  // ---------------------------------------------------------------------------------------

  predicate Contains(s: string, part: string)
    ensures Contains(s, part) <==> exists i :: OccursAt(s, part, i)
  {
    OccursLater(s, part);
    |part| <= |s| && (s[..|part|] == part || (s != [] && Contains(s[1..], part)))
  }

  predicate OccursAt(s: string, part: string, i: int) {
    0 <= i <= |s| - |part| && s[i..i + |part|] == part
  }

  lemma {:induction false} OccursLater(s: string, part: string)
    ensures (exists i :: OccursAt(s, part, i)) <==>
      OccursAt(s, part, 0) || (s != [] && exists i :: OccursAt(s[1..], part, i))
  {
    if i :| OccursAt(s, part, i) {
      if i > 0 {
        assert s[1..][i - 1..i - 1 + |part|] == s[i..i + |part|];
        assert OccursAt(s[1..], part, i - 1);
      }
    }
    if s != [] {
      if i :| OccursAt(s[1..], part, i) {
        assert s[i + 1..i + 1 + |part|] == s[1..][i..i + |part|];
        assert OccursAt(s, part, i + 1);
      }
    }
  }

  function Cast(node: ConsensusNode, setting: Setting): NodeAttestation {
    if setting.faulty == Some(node.id) then
      NodeAttestation(
        node.id, setting.faultyHash, node.attestation.status, node.faultySignature, node.attestation.publicKey)
    else node.attestation
  }

  /** The attestations by node id; a later node of the same id replaces an earlier one. */
  ghost function Collected(nodes: seq<ConsensusNode>, setting: Setting): Attestations {
    if nodes == [] then map[]
    else
      var node, before := nodes[|nodes| - 1], Collected(nodes[..|nodes| - 1], setting);
      if setting.missing == Some(node.id) then before else before[node.id := Cast(node, setting)]
  }

  predicate SignatureOk(attestation: NodeAttestation, setting: Setting) {
    setting.verify(attestation.publicKey, attestation.agreementHash, attestation.signature)
  }

  predicate Counts(attestation: NodeAttestation) {
    attestation.agreementHash != "" && !Contains(attestation.status, "PROVENANCE_FAILURE")
  }

  /** The nodes whose verified attestations count for a hash. */
  ghost function Voters(attestations: Attestations, setting: Setting, hash: string): set<string> {
    set id | id in attestations && SignatureOk(attestations[id], setting) && Counts(attestations[id])
      && attestations[id].agreementHash == hash
  }

  /** A vote is one whose signature over the hash verifies, for a hash that is not empty, from a node whose status
      does not contain the failure marker. Nothing else about the status matters. */
  ghost predicate VotesFor(attestation: NodeAttestation, verify: (string, string, string) -> bool, hash: string) {
    && verify(attestation.publicKey, hash, attestation.signature)
    && attestation.agreementHash == hash && hash != ""
    && !exists i :: OccursAt(attestation.status, "PROVENANCE_FAILURE", i)
  }

  ghost function Supporters(
      attestations: Attestations, verify: (string, string, string) -> bool, hash: string): set<string>
  {
    set id | id in attestations && VotesFor(attestations[id], verify, hash)
  }

  lemma {:induction false} VotersAreSupporters(attestations: Attestations, setting: Setting, hash: string)
    ensures Voters(attestations, setting, hash) == Supporters(attestations, setting.verify, hash)
  {
    forall id | id in attestations
      ensures id in Voters(attestations, setting, hash) <==> id in Supporters(attestations, setting.verify, hash)
    {
      assert Contains(attestations[id].status, "PROVENANCE_FAILURE")
        <==> exists i :: OccursAt(attestations[id].status, "PROVENANCE_FAILURE", i);
    }
  }

  /** Of several nodes of one id the last counts. Unless it is the missing one, it attests what it processed, or the
      injected fault with its own signature of that. */
  lemma {:induction false} CollectedIsCast(nodes: seq<ConsensusNode>, setting: Setting, k: nat)
    requires k < |nodes| && forall j :: k < j < |nodes| ==> nodes[j].id != nodes[k].id
    ensures nodes[k].id in Collected(nodes, setting) <==> setting.missing != Some(nodes[k].id)
    ensures nodes[k].id in Collected(nodes, setting) ==>
      var node, cast := nodes[k], Collected(nodes, setting)[nodes[k].id];
      && (setting.faulty != Some(node.id) ==> cast == node.attestation)
      && (setting.faulty == Some(node.id) ==> cast == NodeAttestation(
           node.id, setting.faultyHash, node.attestation.status, node.faultySignature, node.attestation.publicKey))
    decreases |nodes|
  {
    var n, front := |nodes| - 1, nodes[..|nodes| - 1];
    if k < n {
      CollectedIsCast(front, setting, k);
    } else if setting.missing == Some(nodes[k].id) {
      CollectedFromIds(nodes, setting);
    }
  }

  function Ceil(x: real): int {
    -((-x).Floor)
  }

  function Quorum(n: nat, threshold: real): int {
    Ceil(n as real * threshold)
  }

  /** Comparing the share of the votes with the threshold is comparing the count with the quorum. */
  lemma {:induction false} ShareMeetsThreshold(n: nat, count: int, threshold: real)
    requires n > 0
    ensures count as real / n as real >= threshold <==> count >= Quorum(n, threshold)
  {
    var x := n as real * threshold;
    assert count as real / n as real >= threshold <==> count as real >= x by {
      var share := count as real / n as real;
      assert share * n as real == count as real;
      if share >= threshold {
        assert share * n as real >= threshold * n as real;
      } else {
        assert share * n as real < threshold * n as real;
      }
    }
    assert Ceil(x) as real >= x && (Ceil(x) - 1) as real < x;
  }

  lemma {:induction false} CeilOfMajority(n: nat, x: real)
    requires n as real < x + x && x <= n as real
    ensures n < 2 * Ceil(x) && Ceil(x) <= n
  {
    var q := Ceil(x);
    assert q as real >= x && q as real - 1.0 < x;
    assert q as real - 1.0 < n as real;
    assert n as real < q as real + q as real;
  }

  lemma {:induction false} Scaling(n: real, x: real, y: real)
    requires n > 0.0
    ensures x < y ==> n * x < n * y
    ensures x <= y ==> n * x <= n * y
  {
    assert n * y - n * x == n * (y - x);
  }

  lemma {:induction false} QuorumIsMajority(n: nat, threshold: real)
    requires n > 0 && 0.5 < threshold <= 1.0
    ensures n < 2 * Quorum(n, threshold) && Quorum(n, threshold) <= n
  {
    Scaling(n as real, 0.5, threshold);
    Scaling(n as real, threshold, 1.0);
    CeilOfMajority(n, n as real * threshold);
  }

  ghost function Ids(nodes: seq<ConsensusNode>): set<string> {
    set i | 0 <= i < |nodes| :: nodes[i].id
  }

  lemma {:induction false} IdsSize(nodes: seq<ConsensusNode>)
    ensures |Ids(nodes)| <= |nodes|
  {
    if nodes != [] {
      var front, last := nodes[..|nodes| - 1], nodes[|nodes| - 1];
      IdsSize(front);
      assert Ids(nodes) == Ids(front) + {last.id};
    }
  }

  lemma {:induction false} CollectedFromIds(nodes: seq<ConsensusNode>, setting: Setting)
    ensures Collected(nodes, setting).Keys
      == set id | id in Ids(nodes) && setting.missing != Some(id)
  {
    if nodes != [] {
      var front, last := nodes[..|nodes| - 1], nodes[|nodes| - 1];
      CollectedFromIds(front, setting);
      assert Ids(nodes) == Ids(front) + {last.id};
    }
  }

  // ---------------------------------------------------------------------------------------
  // Decisions
  // ---------------------------------------------------------------------------------------

  /** The run on these nodes settles on this hash. */
  ghost predicate Decides(nodes: seq<ConsensusNode>, setting: Setting, hash: string) {
    && nodes != []
    && |Voters(Collected(nodes, setting), setting, hash)| >= Quorum(|nodes|, setting.threshold)
  }

  lemma {:induction false} UnionSize(a: set<string>, b: set<string>, all: set<string>)
    requires a <= all && b <= all
    ensures |a| + |b| <= |all| + |a * b|
  {
    assert a + b <= all;
    SubsetSize(a + b, all);
    assert |a + b| + |a * b| == |a| + |b|;
  }

  lemma {:induction false} SubsetSize(a: set<string>, b: set<string>)
    requires a <= b
    ensures |a| <= |b|
  {
    assert b == a + (b - a);
  }

  lemma {:induction false} VotersAreNodes(nodes: seq<ConsensusNode>, setting: Setting, hash: string)
    ensures Voters(Collected(nodes, setting), setting, hash) <= Ids(nodes)
  {
    CollectedFromIds(nodes, setting);
  }

  lemma {:induction false} DecisionIsUnique(nodes: seq<ConsensusNode>, setting: Setting, g: string, h: string)
    requires setting.Valid() && Decides(nodes, setting, g) && Decides(nodes, setting, h)
    ensures g == h
  {
    var a := Voters(Collected(nodes, setting), setting, g);
    var b := Voters(Collected(nodes, setting), setting, h);
    VotersAreNodes(nodes, setting, g);
    VotersAreNodes(nodes, setting, h);
    IdsSize(nodes);
    QuorumIsMajority(|nodes|, setting.threshold);
    UnionSize(a, b, Ids(nodes));
    NotEmpty(a * b);
    var id :| id in a * b;
  }

  /** A decided hash is not empty, and those who voted for it were present, signed it, and did not report a
      provenance failure. */
  lemma {:induction false} DecisionIsBacked(nodes: seq<ConsensusNode>, setting: Setting, h: string)
    requires setting.Valid() && Decides(nodes, setting, h)
    ensures h != ""
    ensures forall id :: id in Voters(Collected(nodes, setting), setting, h) ==>
      && id in Ids(nodes) && setting.missing != Some(id)
      && Collected(nodes, setting)[id].agreementHash == h
      && setting.verify(Collected(nodes, setting)[id].publicKey, h, Collected(nodes, setting)[id].signature)
      && !exists i :: OccursAt(Collected(nodes, setting)[id].status, "PROVENANCE_FAILURE", i)
  {
    var voters := Voters(Collected(nodes, setting), setting, h);
    CollectedFromIds(nodes, setting);
    QuorumIsMajority(|nodes|, setting.threshold);
    NotEmpty(voters);
    var id :| id in voters;
    assert Counts(Collected(nodes, setting)[id]);
  }

  lemma {:induction false} NotEmpty(s: set<string>)
    requires |s| > 0
    ensures exists id :: id in s
  {
    assert s != {};
  }

  // ---------------------------------------------------------------------------------------
  // Safety against arbitrary nodes
  // ---------------------------------------------------------------------------------------

  /** A node in both runs attests the same hash in both. */
  ghost predicate Consistent(a: Attestations, b: Attestations, id: string) {
    id in a && id in b ==> a[id].agreementHash == b[id].agreementHash
  }

  lemma {:induction false} SomeHonest(some: set<string>, all: set<string>, honest: set<string>)
    requires some <= all && |some| > |all - honest|
    ensures exists id :: id in some && id in honest
  {
    if forall id :: id in some ==> id !in honest {
      SubsetSize(some, all - honest);
    }
  }

  /** Two runs of one membership and threshold in which only these nodes attest differently. */
  ghost predicate OnlyChange(
      nodes: seq<ConsensusNode>, setting: Setting, nodes': seq<ConsensusNode>, setting': Setting,
      changing: set<string>)
  {
    && |nodes| == |nodes'| && Ids(nodes) == Ids(nodes') && setting.threshold == setting'.threshold
    && changing <= Ids(nodes)
    && forall id :: id in Ids(nodes) && id !in changing ==>
      Consistent(Collected(nodes, setting), Collected(nodes', setting'), id)
  }

  /** Two such runs never settle on different hashes if fewer than 2q - n nodes change. */
  lemma {:induction false} RunsAgree(
      nodes: seq<ConsensusNode>, setting: Setting, nodes': seq<ConsensusNode>, setting': Setting,
      changing: set<string>, g: string, h: string)
    requires OnlyChange(nodes, setting, nodes', setting', changing)
    requires |changing| < 2 * Quorum(|nodes|, setting.threshold) - |nodes|
    requires Decides(nodes, setting, g) && Decides(nodes', setting', h)
    ensures g == h
  {
    var a := Voters(Collected(nodes, setting), setting, g);
    var b := Voters(Collected(nodes', setting'), setting', h);
    VotersAreNodes(nodes, setting, g);
    VotersAreNodes(nodes', setting', h);
    IdsSize(nodes);
    UnionSize(a, b, Ids(nodes));
    var id := OneOutside(a * b, changing);
    assert Consistent(Collected(nodes, setting), Collected(nodes', setting'), id);
  }

  lemma {:induction false} OneOutside(some: set<string>, changing: set<string>) returns (id: string)
    requires |some| > |changing|
    ensures id in some && id !in changing
  {
    if some <= changing {
      SubsetSize(some, changing);
    }
    id :| id in some && id !in changing;
  }

  /** With fewer arbitrary nodes than the quorum, an honest node attested the final hash. */
  lemma {:induction false} HonestNodeAttested(
      nodes: seq<ConsensusNode>, setting: Setting, honest: set<string>, h: string)
    returns (id: string)
    requires honest <= Ids(nodes) && |Ids(nodes) - honest| < Quorum(|nodes|, setting.threshold)
    requires Decides(nodes, setting, h)
    ensures id in honest && id in Collected(nodes, setting)
    ensures Collected(nodes, setting)[id].agreementHash == h
  {
    var voters := Voters(Collected(nodes, setting), setting, h);
    VotersAreNodes(nodes, setting, h);
    SomeHonest(voters, Ids(nodes), honest);
    id :| id in voters && id in honest;
  }

  // ---------------------------------------------------------------------------------------
  // One injected fault
  // ---------------------------------------------------------------------------------------

  function WithFault(setting: Setting, faulty: string): Setting {
    setting.(faulty := Some(faulty))
  }

  lemma {:induction false} FaultChangesOneVote(nodes: seq<ConsensusNode>, setting: Setting, faulty: string, id: string)
    requires setting.faulty == None
    ensures
      var votes, votes' := Collected(nodes, setting), Collected(nodes, WithFault(setting, faulty));
      && (id in votes <==> id in votes')
      && (id in votes && id != faulty ==> votes'[id] == votes[id])
      && (id in votes && id == faulty ==> votes'[id].agreementHash == setting.faultyHash)
  {
    if nodes != [] {
      FaultChangesOneVote(nodes[..|nodes| - 1], setting, faulty, id);
    }
  }

  /** The substituted attestation counts for its hash. */
  ghost predicate FaultCounts(nodes: seq<ConsensusNode>, setting: Setting, faulty: string) {
    faulty in Voters(Collected(nodes, WithFault(setting, faulty)), WithFault(setting, faulty), setting.faultyHash)
  }

  lemma {:induction false} VotersUnderFault(nodes: seq<ConsensusNode>, setting: Setting, faulty: string, h: string)
    requires setting.faulty == None
    ensures Voters(Collected(nodes, WithFault(setting, faulty)), WithFault(setting, faulty), h)
      == Voters(Collected(nodes, setting), setting, h) - {faulty}
        + if h == setting.faultyHash && FaultCounts(nodes, setting, faulty) then {faulty} else {}
  {
    forall id {
      FaultChangesOneVote(nodes, setting, faulty, id);
    }
  }

  /** With a fault a hash is decided exactly if its other voters, and the faulty node in case it attests that hash
      now, are a quorum. */
  lemma {:induction false} FaultDecidesExactly(nodes: seq<ConsensusNode>, setting: Setting, faulty: string, h: string)
    requires setting.faulty == None
    ensures
      var others := |Voters(Collected(nodes, setting), setting, h) - {faulty}|;
      var own := if h == setting.faultyHash && FaultCounts(nodes, setting, faulty) then 1 else 0;
      Decides(nodes, WithFault(setting, faulty), h) <==>
        nodes != [] && others + own >= Quorum(|nodes|, setting.threshold)
  {
    VotersUnderFault(nodes, setting, faulty, h);
    var others := Voters(Collected(nodes, setting), setting, h) - {faulty};
    if h == setting.faultyHash && FaultCounts(nodes, setting, faulty) {
      assert |others + {faulty}| == |others| + 1;
    } else {
      assert others + {} == others;
    }
  }

  /** Substituting the hash of one node can only make the run settle on that hash instead. */
  lemma {:induction false} InjectedFaultIsHarmless(
      nodes: seq<ConsensusNode>, setting: Setting, faulty: string, g: string, h: string)
    requires setting.Valid() && setting.faulty == None
    requires Decides(nodes, setting, g) && Decides(nodes, WithFault(setting, faulty), h)
    ensures g == h || h == setting.faultyHash
    ensures 1 < 2 * Quorum(|nodes|, setting.threshold) - |nodes| ==> g == h
  {
    var voters := Voters(Collected(nodes, setting), setting, h);
    FaultDecidesExactly(nodes, setting, faulty, h);
    SubsetSize(voters - {faulty}, voters);
    if h != setting.faultyHash {
      DecisionIsUnique(nodes, setting, g, h);
    } else if 1 < 2 * Quorum(|nodes|, setting.threshold) - |nodes| {
      var changing := {faulty} * Ids(nodes);
      FaultIsOneChange(nodes, setting, faulty);
      SubsetSize(changing, {faulty});
      RunsAgree(nodes, setting, nodes, WithFault(setting, faulty), changing, g, h);
    }
  }

  lemma {:induction false} FaultIsOneChange(nodes: seq<ConsensusNode>, setting: Setting, faulty: string)
    requires setting.faulty == None
    ensures OnlyChange(nodes, setting, nodes, WithFault(setting, faulty), {faulty} * Ids(nodes))
  {
    forall id | id in Ids(nodes) && id !in {faulty} * Ids(nodes)
      ensures Consistent(Collected(nodes, setting), Collected(nodes, WithFault(setting, faulty)), id)
    {
      FaultChangesOneVote(nodes, setting, faulty, id);
    }
  }

  // ---------------------------------------------------------------------------------------
  // The bound on changing nodes is tight
  // ---------------------------------------------------------------------------------------

  function Name(i: nat): (name: string)
    ensures |name| == i
  {
    seq(i, _ => 'n')
  }

  ghost function Names(first: nat, last: nat): set<string> {
    set i | first <= i < last :: Name(i)
  }

  lemma {:induction false} CountNames(first: nat, last: nat)
    requires first <= last
    ensures |Names(first, last)| == last - first
    decreases last
  {
    if first < last {
      CountNames(first, last - 1);
      assert Names(first, last) == Names(first, last - 1) + {Name(last - 1)};
      assert |Name(last - 1)| == last - 1;
    }
  }

  function Attesting(id: string, hash: string): ConsensusNode {
    ConsensusNode(id, NodeAttestation(id, hash, "OK", "", ""), "")
  }

  /** The first k of n nodes attest one hash, the others another. */
  function SplitVote(n: nat, k: nat): (nodes: seq<ConsensusNode>)
    ensures |nodes| == n
  {
    seq(n, (i: nat) => Attesting(Name(i), if i < k then "x" else "y"))
  }

  lemma {:induction false} SplitVoteIds(n: nat, k: nat)
    ensures DistinctIds(SplitVote(n, k)) && Ids(SplitVote(n, k)) == Names(0, n)
  {
    var nodes := SplitVote(n, k);
    assert forall i :: 0 <= i < n ==> nodes[i].id == Name(i) && |nodes[i].id| == i;
    forall id | id in Names(0, n)
      ensures id in Ids(nodes)
    {
      var i: nat :| i < n && Name(i) == id;
      assert nodes[i].id == id;
    }
  }

  ghost predicate AcceptsAll(verify: (string, string, string) -> bool) {
    forall key, text, signature :: verify(key, text, signature)
  }

  function PlainSetting(threshold: real, verify: (string, string, string) -> bool): Setting {
    Setting(threshold, None, None, "", verify, 1)
  }

  lemma {:induction false} VoteIsCounted(n: nat, k: nat, i: nat, setting: Setting)
    requires i < n && setting.missing == None && setting.faulty == None && AcceptsAll(setting.verify)
    ensures
      var votes := Collected(SplitVote(n, k), setting);
      && Name(i) in votes && votes[Name(i)].agreementHash == (if i < k then "x" else "y")
      && Name(i) in Voters(votes, setting, if i < k then "x" else "y")
  {
    var nodes := SplitVote(n, k);
    SplitVoteIds(n, k);
    CollectedAt(nodes, setting, i);
    assert nodes[i].id == Name(i);
    assert |"OK"| < |"PROVENANCE_FAILURE"|;
    assert Counts(nodes[i].attestation);
  }

  lemma {:induction false} SplitVoteDecides(n: nat, k: nat, setting: Setting)
    requires n > 0 && k <= n && setting.missing == None && setting.faulty == None && AcceptsAll(setting.verify)
    ensures k >= Quorum(n, setting.threshold) ==> Decides(SplitVote(n, k), setting, "x")
    ensures n - k >= Quorum(n, setting.threshold) ==> Decides(SplitVote(n, k), setting, "y")
  {
    var votes := Collected(SplitVote(n, k), setting);
    forall i: nat | i < n {
      VoteIsCounted(n, k, i, setting);
    }
    CountNames(0, k);
    CountNames(k, n);
    SubsetSize(Names(0, k), Voters(votes, setting, "x"));
    SubsetSize(Names(k, n), Voters(votes, setting, "y"));
  }

  lemma {:induction false} SplitVotesAgree(n: nat, k: nat, k': nat, setting: Setting)
    requires k' <= k <= n && setting.missing == None && setting.faulty == None && AcceptsAll(setting.verify)
    ensures OnlyChange(SplitVote(n, k), setting, SplitVote(n, k'), setting, Names(k', k))
  {
    SplitVoteIds(n, k);
    SplitVoteIds(n, k');
    forall id | id in Names(0, n) && id !in Names(k', k)
      ensures Consistent(Collected(SplitVote(n, k), setting), Collected(SplitVote(n, k'), setting), id)
    {
      var i: nat :| i < n && Name(i) == id;
      assert i < k' || k <= i;
      VoteIsCounted(n, k, i, setting);
      VoteIsCounted(n, k', i, setting);
    }
  }

  lemma {:induction false} SplitSizes(n: nat, q: nat)
    requires q <= n <= 2 * q
    ensures |Names(n - q, q)| == 2 * q - n && |Ids(SplitVote(n, q))| == n
  {
    SplitVoteIds(n, q);
    CountNames(0, n);
    CountNames(n - q, q);
  }

  /** Two runs of n nodes that decide different hashes, although only `count` nodes change. */
  ghost predicate Disagree(n: nat, q: nat, setting: Setting, count: int)
    requires q <= n
  {
    var first, second, changing := SplitVote(n, q), SplitVote(n, n - q), Names(n - q, q);
    && Decides(first, setting, "x") && Decides(second, setting, "y")
    && OnlyChange(first, setting, second, setting, changing)
    && |changing| == count && |Ids(first)| == n
  }

  lemma {:induction false} SplitAtQuorum(n: nat, q: nat, setting: Setting)
    requires 0 < n && q <= n <= 2 * q && Quorum(n, setting.threshold) == q
    requires setting.missing == None && setting.faulty == None && AcceptsAll(setting.verify)
    ensures Disagree(n, q, setting, 2 * q - n)
  {
    SplitVotesAgree(n, q, n - q, setting);
    SplitSizes(n, q);
    assert Decides(SplitVote(n, q), setting, "x") by {
      SplitVoteDecides(n, q, setting);
    }
    assert Decides(SplitVote(n, n - q), setting, "y") by {
      SplitVoteDecides(n, n - q, setting);
    }
  }

  /** For any number of nodes and any threshold, 2q - n nodes that change their attestation are enough for two runs
      to settle on different hashes. */
  lemma {:induction false} ChangingNodesBoundIsTight(
      n: nat, threshold: real, verify: (string, string, string) -> bool)
    requires n > 0 && 0.5 < threshold <= 1.0 && AcceptsAll(verify)
    ensures
      var q := Quorum(n, threshold);
      q <= n < 2 * q && Disagree(n, q, PlainSetting(threshold, verify), 2 * q - n)
  {
    QuorumIsMajority(n, threshold);
    SplitAtQuorum(n, Quorum(n, threshold), PlainSetting(threshold, verify));
  }

  // ---------------------------------------------------------------------------------------
  // The order of the nodes
  // ---------------------------------------------------------------------------------------

  ghost predicate DistinctIds(nodes: seq<ConsensusNode>) {
    forall i, j :: 0 <= i < j < |nodes| ==> nodes[i].id != nodes[j].id
  }

  lemma {:induction false} CollectedAt(nodes: seq<ConsensusNode>, setting: Setting, i: nat)
    requires DistinctIds(nodes) && i < |nodes| && setting.missing != Some(nodes[i].id)
    ensures nodes[i].id in Collected(nodes, setting)
    ensures Collected(nodes, setting)[nodes[i].id] == Cast(nodes[i], setting)
  {
    if i < |nodes| - 1 {
      CollectedAt(nodes[..|nodes| - 1], setting, i);
    }
  }

  /** Listing the same nodes in another order changes neither the attestations nor, with them, the
      decision. */
  lemma {:induction false} NodeOrderIsIrrelevant(
      nodes: seq<ConsensusNode>, nodes': seq<ConsensusNode>, setting: Setting)
    requires DistinctIds(nodes) && DistinctIds(nodes')
    requires |nodes| == |nodes'| && forall n :: n in nodes <==> n in nodes'
    ensures Collected(nodes, setting) == Collected(nodes', setting)
    ensures forall h :: Decides(nodes, setting, h) <==> Decides(nodes', setting, h)
  {
    var a, b := Collected(nodes, setting), Collected(nodes', setting);
    CollectedFromIds(nodes, setting);
    CollectedFromIds(nodes', setting);
    SameIds(nodes, nodes');
    SameIds(nodes', nodes);
    forall id | id in a
      ensures a[id] == b[id]
    {
      var i :| 0 <= i < |nodes| && nodes[i].id == id;
      assert nodes[i] in nodes';
      var j :| 0 <= j < |nodes'| && nodes'[j] == nodes[i];
      CollectedAt(nodes, setting, i);
      CollectedAt(nodes', setting, j);
    }
    assert a == b;
  }

  lemma {:induction false} SameIds(nodes: seq<ConsensusNode>, nodes': seq<ConsensusNode>)
    requires forall n :: n in nodes ==> n in nodes'
    ensures Ids(nodes) <= Ids(nodes')
  {
    forall i | 0 <= i < |nodes|
      ensures nodes[i].id in Ids(nodes')
    {
      assert nodes[i] in nodes';
    }
  }
}
