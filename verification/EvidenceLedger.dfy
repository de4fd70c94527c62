/** evidence_ledger.py: the chain of execution records, its verification and its Merkle root. */
module EvidenceLedger {
  import opened Digests
  import opened Wrappers
  import Merkle

  /** execution_root_hash is never read and is not modelled. */
  datatype ExecutionRecord = ExecutionRecord(
    base: ExecutionBase,
    executionHash: Digest,
    previousExecutionHash: Digest)

  datatype LedgerSnapshot = LedgerSnapshot(sequenceLength: nat, merkleRoot: Digest, latestEvidenceHash: Digest)

  // ---------------------------------------------------------------------------------------
  // The chain
  // ---------------------------------------------------------------------------------------

  /** The chain hash after the given records. */
  function Head(records: seq<ExecutionRecord>): Digest {
    if records == [] then GENESIS
    else Pair(Head(records[..|records| - 1]), records[|records| - 1].executionHash)
  }

  ghost function ExecutionHashes(records: seq<ExecutionRecord>): seq<Digest> {
    seq(|records|, i requires 0 <= i < |records| => records[i].executionHash)
  }

  /** Record i may stand where it does: it names no predecessor or the right one. */
  ghost predicate LinkOk(records: seq<ExecutionRecord>, i: nat)
    requires i < |records|
  {
    records[i].previousExecutionHash in {NO_DIGEST, Head(records[..i])}
  }

  ghost predicate PrefixOk(records: seq<ExecutionRecord>, hashes: seq<Digest>, n: nat)
    requires n <= |records|
  {
    n <= |hashes| && forall i :: 0 <= i < n ==> LinkOk(records, i) && hashes[i] == Head(records[..i + 1])
  }

  ghost predicate ChainOk(records: seq<ExecutionRecord>, hashes: seq<Digest>, head: Digest) {
    PrefixOk(records, hashes, |records|) && head == Head(records)
  }

  lemma {:induction false} HeadStep(records: seq<ExecutionRecord>, i: nat)
    requires i < |records|
    ensures Head(records[..i + 1]) == Pair(Head(records[..i]), records[i].executionHash)
  {
    assert records[..i + 1][..i] == records[..i];
  }

  /** The record names the chain hash before it or none, and the stored hash covers that one and the record. */
  ghost predicate StandsAt(records: seq<ExecutionRecord>, hashes: seq<Digest>, i: nat)
    requires i < |records| && i < |hashes|
  {
    && (records[i].previousExecutionHash == Text("") || records[i].previousExecutionHash == Head(records[..i]))
    && hashes[i] == Pair(Head(records[..i]), records[i].executionHash)
  }

  /** What a chain is. */
  lemma {:induction false} ChainExactly(records: seq<ExecutionRecord>, hashes: seq<Digest>, head: Digest)
    requires |hashes| >= |records|
    ensures ChainOk(records, hashes, head) <==>
      head == Head(records) && forall i :: 0 <= i < |records| ==> StandsAt(records, hashes, i)
  {
    forall i | 0 <= i < |records|
      ensures StandsAt(records, hashes, i) <==> LinkOk(records, i) && hashes[i] == Head(records[..i + 1])
    {
      HeadStep(records, i);
    }
  }

  lemma {:induction false} ChainGrows(records: seq<ExecutionRecord>, hashes: seq<Digest>, record: ExecutionRecord)
    requires PrefixOk(records, hashes, |records|) && |hashes| == |records|
    requires record.previousExecutionHash in {NO_DIGEST, Head(records)}
    ensures
      var head := Pair(Head(records), record.executionHash);
      ChainOk(records + [record], hashes + [head], head)
  {
    var longer, head := records + [record], Pair(Head(records), record.executionHash);
    assert longer[..|records|] == records && longer[..|longer|] == longer;
    forall i | 0 <= i < |records|
      ensures LinkOk(longer, i) && (hashes + [head])[i] == Head(longer[..i + 1])
    {
      assert LinkOk(records, i);
      assert longer[..i] == records[..i] && longer[..i + 1] == records[..i + 1];
    }
  }

  /** Equal heads have equal histories of execution hashes, whatever the lengths. */
  lemma {:induction false} HeadBinding(a: seq<ExecutionRecord>, b: seq<ExecutionRecord>)
    ensures Head(a) == Head(b) <==> ExecutionHashes(a) == ExecutionHashes(b)
  {
    if a != [] && b != [] {
      var a', b' := a[..|a| - 1], b[..|b| - 1];
      HeadBinding(a', b');
      var x, y := a[|a| - 1].executionHash, b[|b| - 1].executionHash;
      assert ExecutionHashes(a) == ExecutionHashes(a') + [x];
      assert ExecutionHashes(b) == ExecutionHashes(b') + [y];
      if ExecutionHashes(a) == ExecutionHashes(b) {
        assert ExecutionHashes(a') == ExecutionHashes(a)[..|a'|] == ExecutionHashes(b');
        assert x == ExecutionHashes(a)[|a| - 1] == y;
      }
    } else {
      assert |ExecutionHashes(a)| == |a| && |ExecutionHashes(b)| == |b|;
    }
  }

  lemma {:induction false} SamePrefixHead(a: seq<ExecutionRecord>, b: seq<ExecutionRecord>, n: nat)
    requires ExecutionHashes(a) == ExecutionHashes(b) && |a| == |b| && n <= |a|
    ensures Head(a[..n]) == Head(b[..n])
  {
    assert ExecutionHashes(a[..n]) == ExecutionHashes(a)[..n] == ExecutionHashes(b[..n]);
    HeadBinding(a[..n], b[..n]);
  }

  /** Whatever records and hashes pass verification with the same head tell the same history. */
  lemma {:induction false} HeadDeterminesHistory(
      a: seq<ExecutionRecord>, aHashes: seq<Digest>, b: seq<ExecutionRecord>, bHashes: seq<Digest>, head: Digest)
    requires ChainOk(a, aHashes, head) && ChainOk(b, bHashes, head)
    ensures |a| == |b| && ExecutionHashes(a) == ExecutionHashes(b)
    ensures aHashes[..|a|] == bHashes[..|b|]
  {
    HeadBinding(a, b);
    assert |a| == |ExecutionHashes(a)| == |b|;
    forall i | 0 <= i < |a|
      ensures aHashes[i] == bHashes[i]
    {
      SamePrefixHead(a, b, i + 1);
    }
  }

  // ---------------------------------------------------------------------------------------
  // The Merkle root of the ledger
  // ---------------------------------------------------------------------------------------

  /** One level up, a missing right child replaced by its left sibling. */
  function PairLevel(level: seq<Digest>): (next: seq<Digest>)
    ensures |next| == (|level| + 1) / 2
  {
    seq((|level| + 1) / 2, i requires 0 <= i < (|level| + 1) / 2 =>
      Pair(level[2 * i], if 2 * i + 1 < |level| then level[2 * i + 1] else level[2 * i]))
  }

  function LedgerRoot(level: seq<Digest>): Digest
    requires level != []
    decreases |level|
  {
    if |level| == 1 then level[0] else LedgerRoot(PairLevel(level))
  }

  /** The ledger's root is the top of the tree that the audit trail's builder stores. */
  lemma {:induction false} AlgorithmsAgree(level: seq<Digest>)
    requires level != []
    ensures Merkle.Tree(level)[|Merkle.Tree(level)| - 1] == [LedgerRoot(level)]
    decreases |level|
  {
    if |level| > 1 {
      assert PairLevel(level) == Merkle.Parents(level);
      AlgorithmsAgree(PairLevel(level));
    }
  }

  // ---------------------------------------------------------------------------------------
  // What the root commits to
  // ---------------------------------------------------------------------------------------

  const EMPTY_LEDGER := Constant("EMPTY_LEDGER")

  function PublishedRoot(hashes: seq<Digest>): Digest {
    if hashes == [] then EMPTY_LEDGER else LedgerRoot(hashes)
  }

  lemma {:induction false} LedgerRootIsRoot(level: seq<Digest>)
    requires level != []
    ensures LedgerRoot(level) == Merkle.Root(level)
  {
    AlgorithmsAgree(level);
    Merkle.TreeTop(level);
  }

  ghost function LeftDepth(d: Digest): nat {
    if d.Pair? then 1 + LeftDepth(d.left) else 0
  }

  lemma {:induction false} ParentLeftDepth(level: seq<Digest>)
    requires |level| > 1
    ensures LeftDepth(Merkle.Parents(level)[0]) == 1 + LeftDepth(level[0])
  {
    Merkle.ParentNode(level, 0);
  }

  lemma {:induction false} RootLeftDepth(level: seq<Digest>)
    requires level != []
    ensures LeftDepth(Merkle.Root(level)) == Merkle.Height(|level|) + LeftDepth(level[0])
    decreases |level|
  {
    if |level| > 1 {
      ParentLeftDepth(level);
      RootLeftDepth(Merkle.Parents(level));
    }
  }

  /** The stored hashes are those of the records. */
  ghost predicate HashesOf(hashes: seq<Digest>, records: seq<ExecutionRecord>) {
    |hashes| == |records| && forall i :: 0 <= i < |records| ==> hashes[i] == Head(records[..i + 1])
  }

  /** The first chain hash is a pair with GENESIS at its left. */
  lemma {:induction false} FirstHash(hashes: seq<Digest>, records: seq<ExecutionRecord>)
    requires records != [] && HashesOf(hashes, records)
    ensures LeftDepth(hashes[0]) == 1
  {
    assert hashes[0] == Head(records[..1]) && records[..1][..0] == [];
    assert hashes[0] == Pair(GENESIS, records[0].executionHash);
  }

  lemma {:induction false} RootHeight(hashes: seq<Digest>, records: seq<ExecutionRecord>)
    requires records != [] && HashesOf(hashes, records)
    ensures LeftDepth(LedgerRoot(hashes)) == Merkle.Height(|records|) + 1
  {
    LedgerRootIsRoot(hashes);
    RootLeftDepth(hashes);
    FirstHash(hashes, records);
  }

  /** Trees of one height with one root agree at every position of their padded bottom rows. */
  lemma {:induction false} SameRootSamePosition(a: seq<Digest>, b: seq<Digest>, j: nat)
    requires a != [] && b != [] && Merkle.Root(a) == Merkle.Root(b)
    requires Merkle.Height(|a|) == Merkle.Height(|b|) && j < Merkle.Pow2(Merkle.Height(|a|))
    ensures a[Merkle.Canonical(|a|, j)] == b[Merkle.Canonical(|b|, j)]
  {
    var path := Merkle.PathTo(b, j);
    Merkle.PathReachesRoot(b, j);
    Merkle.PathSpells(b, j);
    Merkle.PathLength(b, j);
    Merkle.FoldToRootIsPath(a, b[Merkle.Canonical(|b|, j)], path);
  }

  lemma {:induction false} HashesDiffer(hashes: seq<Digest>, records: seq<ExecutionRecord>, i: nat, j: nat)
    requires HashesOf(hashes, records) && i < j < |records|
    ensures hashes[i] != hashes[j]
  {
    HeadBinding(records[..i + 1], records[..j + 1]);
    assert |ExecutionHashes(records[..i + 1])| == i + 1 && |ExecutionHashes(records[..j + 1])| == j + 1;
  }

  lemma {:induction false} SameRootNotLonger(a: seq<Digest>, b: seq<Digest>, bRecords: seq<ExecutionRecord>)
    requires a != [] && b != [] && HashesOf(b, bRecords) && Merkle.Root(a) == Merkle.Root(b)
    requires Merkle.Height(|a|) == Merkle.Height(|b|)
    ensures |b| <= |a|
  {
    if |a| < |b| {
      var last := |b| - 1;
      var c := Merkle.Canonical(|a|, last);
      Merkle.HeightIsCeilLog2(|b|);
      SameRootSamePosition(a, b, last);
      SameRootSamePosition(a, b, c);
      HashesDiffer(b, bRecords, c, last);
    }
  }

  lemma {:induction false} SameRootSameLength(
      a: seq<ExecutionRecord>, aHashes: seq<Digest>, b: seq<ExecutionRecord>, bHashes: seq<Digest>)
    requires a != [] && b != [] && HashesOf(aHashes, a) && HashesOf(bHashes, b)
    requires LedgerRoot(aHashes) == LedgerRoot(bHashes)
    ensures |a| == |b| && Merkle.Root(aHashes) == Merkle.Root(bHashes)
  {
    LedgerRootIsRoot(aHashes);
    LedgerRootIsRoot(bHashes);
    RootHeight(aHashes, a);
    RootHeight(bHashes, b);
    SameRootNotLonger(aHashes, bHashes, b);
    SameRootNotLonger(bHashes, aHashes, a);
  }

  lemma {:induction false} LastHash(hashes: seq<Digest>, records: seq<ExecutionRecord>)
    requires records != [] && HashesOf(hashes, records)
    ensures hashes[|records| - 1] == Head(records)
  {
    assert records[..|records|] == records;
  }

  lemma {:induction false} SameRootSameHead(
      a: seq<ExecutionRecord>, aHashes: seq<Digest>, b: seq<ExecutionRecord>, bHashes: seq<Digest>)
    requires a != [] && b != [] && HashesOf(aHashes, a) && HashesOf(bHashes, b)
    requires LedgerRoot(aHashes) == LedgerRoot(bHashes)
    ensures Head(a) == Head(b)
  {
    SameRootSameLength(a, aHashes, b, bHashes);
    Merkle.HeightIsCeilLog2(|a|);
    SameRootSamePosition(aHashes, bHashes, |a| - 1);
    LastHash(aHashes, a);
    LastHash(bHashes, b);
  }

  lemma {:induction false} SameHistorySameHashes(
      a: seq<ExecutionRecord>, aHashes: seq<Digest>, b: seq<ExecutionRecord>, bHashes: seq<Digest>)
    requires HashesOf(aHashes, a) && HashesOf(bHashes, b) && ExecutionHashes(a) == ExecutionHashes(b)
    ensures aHashes == bHashes
  {
    assert |a| == |ExecutionHashes(a)| == |b|;
    forall i | 0 <= i < |a|
      ensures aHashes[i] == bHashes[i]
    {
      SamePrefixHead(a, b, i + 1);
    }
  }

  /** Although padding repeats leaves, the root that a ledger publishes determines the whole history of execution
      hashes, and with it their number: chain hashes never repeat. */
  lemma {:induction false} RootDeterminesHistory(
      a: seq<ExecutionRecord>, aHashes: seq<Digest>, b: seq<ExecutionRecord>, bHashes: seq<Digest>)
    requires HashesOf(aHashes, a) && HashesOf(bHashes, b)
    ensures PublishedRoot(aHashes) == PublishedRoot(bHashes) <==> ExecutionHashes(a) == ExecutionHashes(b)
  {
    if ExecutionHashes(a) == ExecutionHashes(b) {
      SameHistorySameHashes(a, aHashes, b, bHashes);
    } else if a != [] && b != [] {
      if LedgerRoot(aHashes) == LedgerRoot(bHashes) {
        SameRootSameHead(a, aHashes, b, bHashes);
        HeadBinding(a, b);
      }
    } else if a != [] {
      RootHeight(aHashes, a);
    } else if b != [] {
      RootHeight(bHashes, b);
    }
  }

  // ---------------------------------------------------------------------------------------
  // The ledger
  // ---------------------------------------------------------------------------------------

  class EvidenceLedger {
    var records: seq<ExecutionRecord>
    var evidenceHashes: seq<Digest>
    var currentHead: Digest

    ghost predicate Valid()
      reads this
    {
      ChainOk(records, evidenceHashes, currentHead) && |evidenceHashes| == |records|
    }

    constructor ()
      ensures Valid() && records == [] && currentHead == Constant("GENESIS")
    {
      records, evidenceHashes, currentHead := [], [], GENESIS;
    }

    method Append(record: ExecutionRecord) returns (r: Result<LedgerSnapshot>)
      requires Valid()
      modifies this
      ensures Valid()
      ensures r.Failure? <==> record.previousExecutionHash !in {NO_DIGEST, old(currentHead)}
      ensures r.Failure? ==> unchanged(this)
      ensures r.Success? ==>
        && records == old(records) + [record]
        && evidenceHashes == old(evidenceHashes) + [currentHead]
        && currentHead == Pair(old(currentHead), record.executionHash)
        && r.value == LedgerSnapshot(|records|, LedgerRoot(evidenceHashes), currentHead)
    {
      if record.previousExecutionHash != NO_DIGEST && record.previousExecutionHash != currentHead {
        return Failure("Invalid previous hash");
      }
      var newChainHash := Pair(currentHead, record.executionHash);
      records := records + [record];
      evidenceHashes := evidenceHashes + [newChainHash];
      currentHead := newChainHash;
      ChainGrows(old(records), old(evidenceHashes), record);
      var merkleRoot := GetMerkleRoot();
      r := Success(LedgerSnapshot(|records|, merkleRoot, currentHead));
    }

    method GetMerkleRoot() returns (root: Digest)
      ensures root == PublishedRoot(evidenceHashes)
      ensures evidenceHashes == [] ==> root == Constant("EMPTY_LEDGER")
    {
      if evidenceHashes == [] {
        return EMPTY_LEDGER;
      }
      var currentLevel := evidenceHashes;
      while |currentLevel| > 1
        invariant currentLevel != [] && LedgerRoot(currentLevel) == LedgerRoot(evidenceHashes)
        decreases |currentLevel|
      {
        var nextLevel: seq<Digest> := [];
        var i := 0;
        while i < |currentLevel|
          invariant 0 <= i <= |currentLevel| + 1 && i % 2 == 0
          invariant nextLevel == PairLevel(currentLevel)[..i / 2]
        {
          var left := currentLevel[i];
          var right := if i + 1 < |currentLevel| then currentLevel[i + 1] else left;
          nextLevel := nextLevel + [Pair(left, right)];
          i := i + 2;
        }
        assert nextLevel == PairLevel(currentLevel);
        currentLevel := nextLevel;
      }
      root := currentLevel[0];
    }

    /** The fields may hold anything. None stands for the IndexError raised when the stored hashes run
        out before a mismatch is found. */
    method VerifyChain() returns (r: Option<bool>)
      ensures r == Some(true) <==> ChainOk(records, evidenceHashes, currentHead)
      ensures r == None <==>
        && |evidenceHashes| < |records|
        && PrefixOk(records, evidenceHashes, |evidenceHashes|)
        && LinkOk(records, |evidenceHashes|)
    {
      var head := GENESIS;
      for i := 0 to |records|
        invariant PrefixOk(records, evidenceHashes, i) && head == Head(records[..i])
      {
        var record := records[i];
        assert records[..i + 1][..i] == records[..i];
        if record.previousExecutionHash != NO_DIGEST && record.previousExecutionHash != head {
          assert !LinkOk(records, i);
          return Some(false);
        }
        assert LinkOk(records, i);
        var expected := Pair(head, record.executionHash);
        if i >= |evidenceHashes| {
          return None;
        }
        if evidenceHashes[i] != expected {
          return Some(false);
        }
        head := expected;
      }
      assert records[..|records|] == records;
      r := Some(head == currentHead);
    }
  }
}
