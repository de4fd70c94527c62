/** distributed_simulation.py: independent nodes that chain what they execute, then compare. */
module Simulation {
  import opened Digests

  datatype Contract = Contract(traceId: string, payloadHash: string)

  /** What governance and the runtime of one node made of one contract. */
  datatype Outcome = Outcome(runtimeHash: string, ack: string)

  type Ledger = seq<Digest>

  const START := Text("GENESIS")

  function Last(ledger: Ledger): Digest {
    if ledger == [] then START else ledger[|ledger| - 1]
  }

  function Entry(previous: Digest, contract: Contract, outcome: Outcome): Digest {
    Link([contract.traceId, contract.payloadHash, outcome.runtimeHash, outcome.ack], previous)
  }

  datatype Execution = Executed(contract: Contract, outcome: Outcome)

  /** A ledger after further executions. */
  ghost function Extended(ledger: Ledger, executions: seq<Execution>): Ledger {
    if executions == [] then ledger
    else
      var last := executions[|executions| - 1];
      var before := Extended(ledger, executions[..|executions| - 1]);
      before + [Entry(Last(before), last.contract, last.outcome)]
  }

  ghost predicate Linked(ledger: Ledger) {
    forall i :: 0 <= i < |ledger| ==> ledger[i].Link? && ledger[i].previous == Last(ledger[..i])
  }

  lemma {:induction false} LinkedFront(ledger: Ledger)
    requires Linked(ledger) && ledger != []
    ensures Linked(ledger[..|ledger| - 1])
    ensures ledger == ledger[..|ledger| - 1] + [Last(ledger)]
    ensures Last(ledger).Link? && Last(ledger).previous == Last(ledger[..|ledger| - 1])
  {
    var front := ledger[..|ledger| - 1];
    forall i | 0 <= i < |front|
      ensures front[i].Link? && front[i].previous == Last(front[..i])
    {
      assert front[..i] == ledger[..i];
    }
  }

  /** The last entry of a linked ledger determines all of it. */
  lemma {:induction false} LastDeterminesLedger(a: Ledger, b: Ledger)
    requires Linked(a) && Linked(b)
    ensures Last(a) == Last(b) <==> a == b
  {
    if a != [] {
      LinkedFront(a);
    }
    if b != [] {
      LinkedFront(b);
    }
    if a != [] && b != [] {
      LastDeterminesLedger(a[..|a| - 1], b[..|b| - 1]);
    }
  }

  lemma {:induction false} ExtendedLength(ledger: Ledger, executions: seq<Execution>)
    ensures |Extended(ledger, executions)| == |ledger| + |executions|
  {
    if executions != [] {
      ExtendedLength(ledger, executions[..|executions| - 1]);
    }
  }

  lemma {:induction false} EntryKeepsLinked(ledger: Ledger, contract: Contract, outcome: Outcome)
    requires Linked(ledger)
    ensures Linked(ledger + [Entry(Last(ledger), contract, outcome)])
  {
    var after := ledger + [Entry(Last(ledger), contract, outcome)];
    forall i | 0 <= i < |after|
      ensures after[i].Link? && after[i].previous == Last(after[..i])
    {
      assert after[..i] == ledger[..i];
      assert ledger[..|ledger|] == ledger;
    }
  }

  lemma {:induction false} ExtendedIsLinked(ledger: Ledger, executions: seq<Execution>)
    requires Linked(ledger)
    ensures Linked(Extended(ledger, executions))
  {
    if executions != [] {
      var front, last := executions[..|executions| - 1], executions[|executions| - 1];
      ExtendedIsLinked(ledger, front);
      EntryKeepsLinked(Extended(ledger, front), last.contract, last.outcome);
    }
  }

  /** The ledger of a fresh node determines which contracts it executed, in which order, and what came
      of each. */
  lemma {:induction false} LedgerRecordsExecutions(s: seq<Execution>, t: seq<Execution>)
    ensures Extended([], s) == Extended([], t) <==> s == t
  {
    ExtendedLength([], s);
    ExtendedLength([], t);
    if |s| == |t| && s != [] {
      var s', t', x, y := s[..|s| - 1], t[..|t| - 1], s[|s| - 1], t[|t| - 1];
      LedgerRecordsExecutions(s', t');
      ExtendedLength([], s');
      ExtendedLength([], t');
      StepRecordsExecution(Extended([], s'), Extended([], t'), x, y);
      assert s == s' + [x] && t == t' + [y];
      SnocEqual(s', x, t', y);
    }
  }

  lemma {:induction false} StepRecordsExecution(a: Ledger, b: Ledger, x: Execution, y: Execution)
    requires |a| == |b|
    ensures a + [Entry(Last(a), x.contract, x.outcome)] == b + [Entry(Last(b), y.contract, y.outcome)]
      <==> a == b && x == y
  {
    SnocEqual(a, Entry(Last(a), x.contract, x.outcome), b, Entry(Last(b), y.contract, y.outcome));
    EntryRecordsExecution(Last(a), Last(b), x, y);
  }

  lemma {:induction false} EntryRecordsExecution(p: Digest, q: Digest, x: Execution, y: Execution)
    ensures Entry(p, x.contract, x.outcome) == Entry(q, y.contract, y.outcome) <==> p == q && x == y
  {
    var f := [x.contract.traceId, x.contract.payloadHash, x.outcome.runtimeHash, x.outcome.ack];
    var g := [y.contract.traceId, y.contract.payloadHash, y.outcome.runtimeHash, y.outcome.ack];
    assert f == g ==> f[0] == g[0] && f[1] == g[1] && f[2] == g[2] && f[3] == g[3];
  }

  lemma {:induction false} SnocEqual<T>(a: seq<T>, x: T, b: seq<T>, y: T)
    requires |a| == |b|
    ensures a + [x] == b + [y] <==> a == b && x == y
  {
    if a + [x] == b + [y] {
      assert a == (a + [x])[..|a|] && b == (b + [y])[..|b|];
      assert x == (a + [x])[|a|] && y == (b + [y])[|b|];
    }
  }

  class SimulatedNode {
    var ledger: Ledger

    constructor ()
      ensures ledger == []
    {
      ledger := [];
    }

    method Process(contract: Contract, outcome: Outcome)
      modifies this
      ensures ledger == old(ledger) + [Entry(Last(old(ledger)), contract, outcome)]
    {
      var prevHash := if ledger == [] then START else ledger[|ledger| - 1];
      ledger := ledger + [Entry(prevHash, contract, outcome)];
    }
  }

  datatype DistributedProof = DistributedProof(passed: bool, contractsProcessed: nat, hashAgreement: bool)

  /** What a node executes when it is given the first `count` contracts. */
  ghost function Executions(contracts: seq<Contract>, outcome: (nat, nat) -> Outcome, node: nat, count: nat)
    : seq<Execution>
    requires count <= |contracts|
  {
    seq(count, (c: nat) requires c < count => Executed(contracts[c], outcome(node, c)))
  }

  lemma {:induction false} OneMoreContract(
      ledger: Ledger, contracts: seq<Contract>, c: nat, outcome: (nat, nat) -> Outcome, node: nat)
    requires c < |contracts|
    ensures
      var before := Extended(ledger, Executions(contracts, outcome, node, c));
      Extended(ledger, Executions(contracts, outcome, node, c + 1))
        == before + [Entry(Last(before), contracts[c], outcome(node, c))]
  {
    assert Executions(contracts, outcome, node, c + 1)[..c] == Executions(contracts, outcome, node, c);
  }

  ghost predicate Distinct(nodes: seq<SimulatedNode>) {
    forall i, j :: 0 <= i < j < |nodes| ==> nodes[i] != nodes[j]
  }

  ghost function Ledgers(nodes: seq<SimulatedNode>): (r: seq<Ledger>)
    reads nodes
    ensures |r| == |nodes|
  {
    seq(|nodes|, i requires 0 <= i < |nodes| reads nodes => nodes[i].ledger)
  }

  /** The ledgers after every node has executed the c-th contract as well. */
  ghost function Advanced(ledgers: seq<Ledger>, contract: Contract, c: nat, outcome: (nat, nat) -> Outcome)
    : (r: seq<Ledger>)
    ensures |r| == |ledgers|
  {
    seq(|ledgers|, (i: nat) requires i < |ledgers| =>
      ledgers[i] + [Entry(Last(ledgers[i]), contract, outcome(i, c))])
  }

  /** The ledgers after the first `count` contracts. */
  ghost function LedgersAfter(
      start: seq<Ledger>, contracts: seq<Contract>, outcome: (nat, nat) -> Outcome, count: nat)
    : (r: seq<Ledger>)
    requires count <= |contracts|
    ensures |r| == |start|
  {
    seq(|start|, (i: nat) requires i < |start| => Extended(start[i], Executions(contracts, outcome, i, count)))
  }

  lemma {:induction false} AdvanceOnce(
      start: seq<Ledger>, contracts: seq<Contract>, outcome: (nat, nat) -> Outcome, c: nat)
    requires c < |contracts|
    ensures Advanced(LedgersAfter(start, contracts, outcome, c), contracts[c], c, outcome)
      == LedgersAfter(start, contracts, outcome, c + 1)
  {
    forall i: nat | i < |start|
      ensures Advanced(LedgersAfter(start, contracts, outcome, c), contracts[c], c, outcome)[i]
        == LedgersAfter(start, contracts, outcome, c + 1)[i]
    {
      OneMoreContract(start[i], contracts, c, outcome, i);
    }
  }

  method RunContract(nodes: seq<SimulatedNode>, contract: Contract, c: nat, outcome: (nat, nat) -> Outcome)
    requires Distinct(nodes)
    modifies nodes
    ensures Ledgers(nodes) == Advanced(old(Ledgers(nodes)), contract, c, outcome)
  {
    for i := 0 to |nodes|
      invariant forall k :: 0 <= k < i ==>
        nodes[k].ledger == old(nodes[k].ledger) + [Entry(Last(old(nodes[k].ledger)), contract, outcome(k, c))]
      invariant forall k :: i <= k < |nodes| ==> nodes[k].ledger == old(nodes[k].ledger)
    {
      nodes[i].Process(contract, outcome(i, c));
    }
  }

  lemma {:induction false} NoContracts(
      start: seq<Ledger>, contracts: seq<Contract>, outcome: (nat, nat) -> Outcome)
    ensures LedgersAfter(start, contracts, outcome, 0) == start
  {
    forall i: nat | i < |start|
      ensures Extended(start[i], Executions(contracts, outcome, i, 0)) == start[i]
    {
      assert Executions(contracts, outcome, i, 0) == [];
    }
  }

  lemma {:induction false} OneMoreRound(c: nat, n: nat)
    ensures (c + 1) * n == c * n + n
  {
  }

  method RunContracts(nodes: seq<SimulatedNode>, contracts: seq<Contract>, outcome: (nat, nat) -> Outcome)
    returns (processed: nat)
    requires Distinct(nodes)
    modifies nodes
    ensures Ledgers(nodes) == LedgersAfter(old(Ledgers(nodes)), contracts, outcome, |contracts|)
    ensures processed == |contracts| * |nodes|
  {
    processed := 0;
    ghost var start := Ledgers(nodes);
    NoContracts(start, contracts, outcome);
    for c := 0 to |contracts|
      invariant Ledgers(nodes) == LedgersAfter(start, contracts, outcome, c)
      invariant processed == c * |nodes|
    {
      AdvanceOnce(start, contracts, outcome, c);
      OneMoreRound(c, |nodes|);
      RunContract(nodes, contracts[c], c, outcome);
      processed := processed + |nodes|;
    }
  }

  lemma {:induction false} LedgersStayLinked(
      start: seq<Ledger>, contracts: seq<Contract>, outcome: (nat, nat) -> Outcome)
    requires forall i :: 0 <= i < |start| ==> Linked(start[i])
    ensures
      var after := LedgersAfter(start, contracts, outcome, |contracts|);
      forall i :: 0 <= i < |start| ==> Linked(after[i])
  {
    forall i: nat | i < |start| {
      ExtendedIsLinked(start[i], Executions(contracts, outcome, i, |contracts|));
    }
  }

  ghost predicate AllLinked(ledgers: seq<Ledger>) {
    forall i :: 0 <= i < |ledgers| ==> Linked(ledgers[i])
  }

  /** All ledgers are equal, and not empty. */
  ghost predicate Agreement(ledgers: seq<Ledger>) {
    ledgers != [] && ledgers[0] != [] && forall i :: 0 <= i < |ledgers| ==> ledgers[i] == ledgers[0]
  }

  /** The second check of the run never fails when the first succeeds, so `passed` says no more than the
      agreement of the final hashes; and that already means equal ledgers. */
  method Run(nodes: seq<SimulatedNode>, contracts: seq<Contract>, outcome: (nat, nat) -> Outcome)
    returns (proof: DistributedProof)
    requires Distinct(nodes) && AllLinked(Ledgers(nodes))
    modifies nodes
    ensures Ledgers(nodes) == LedgersAfter(old(Ledgers(nodes)), contracts, outcome, |contracts|)
    ensures proof.passed <==> proof.hashAgreement
    ensures proof.passed <==> Agreement(Ledgers(nodes))
    ensures proof.contractsProcessed == |contracts| * |nodes|
  {
    ghost var start := Ledgers(nodes);
    var processed := RunContracts(nodes, contracts, outcome);
    LedgersStayLinked(start, contracts, outcome);
    var hashAgreement, ledgerAgreement := CompareLedgers(nodes);
    proof := DistributedProof(hashAgreement && ledgerAgreement, processed, hashAgreement);
  }

  method CompareLedgers(nodes: seq<SimulatedNode>) returns (hashAgreement: bool, ledgerAgreement: bool)
    requires AllLinked(Ledgers(nodes))
    ensures hashAgreement <==> Agreement(Ledgers(nodes))
    ensures hashAgreement ==> ledgerAgreement
  {
    assert forall i :: 0 <= i < |nodes| ==> Ledgers(nodes)[i] == nodes[i].ledger && Linked(nodes[i].ledger);
    var finalHashes: seq<Digest> := [];
    for i := 0 to |nodes|
      invariant |finalHashes| == i
      invariant forall k :: 0 <= k < i ==>
        finalHashes[k] == if nodes[k].ledger == [] then NO_DIGEST else Last(nodes[k].ledger)
    {
      finalHashes := finalHashes + [if nodes[i].ledger == [] then NO_DIGEST else Last(nodes[i].ledger)];
    }
    SizeOneMeansAllEqual(finalHashes);
    hashAgreement := |set h | h in finalHashes| == 1 && finalHashes[0] != NO_DIGEST;
    ledgerAgreement := forall i | 0 <= i < |nodes| :: nodes[i].ledger == nodes[0].ledger;
    forall i | 0 <= i < |nodes| {
      LastDeterminesLedger(nodes[i].ledger, nodes[0].ledger);
    }
  }

  lemma {:induction false} SizeOneMeansAllEqual(hashes: seq<Digest>)
    ensures |set h | h in hashes| == 1 <==>
      hashes != [] && forall i :: 0 <= i < |hashes| ==> hashes[i] == hashes[0]
  {
    var all := set h | h in hashes;
    if hashes == [] {
      assert all == {};
    } else {
      assert hashes[0] in all;
      var rest := all - {hashes[0]};
      assert |all| == |rest| + 1;
      if forall i :: 0 <= i < |hashes| ==> hashes[i] == hashes[0] {
        assert rest == {};
      } else {
        var i :| 0 <= i < |hashes| && hashes[i] != hashes[0];
        assert hashes[i] in rest;
      }
    }
  }
}
