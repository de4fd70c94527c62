/** provenance_api.py over the ledger that execution_process.py builds. */
module Provenance {
  import opened Digests
  import opened Wrappers
  import opened EvidenceLedger

  /** The records that the execution process writes: hashed as they stand, linked to the ledger's head,
      each with an id of its own. */
  ghost predicate BuiltByProcess(records: seq<ExecutionRecord>) {
    && (forall i :: 0 <= i < |records| ==>
         && records[i].executionHash == Execution(records[i].base)
         && records[i].previousExecutionHash == Head(records[..i]))
    && (forall i, j :: 0 <= i < j < |records| ==>
         records[i].base.executionId != records[j].base.executionId)
  }

  method RecordExecution(ledger: EvidenceLedger, base: ExecutionBase)
    returns (record: ExecutionRecord, r: Result<LedgerSnapshot>)
    requires ledger.Valid() && BuiltByProcess(ledger.records)
    requires forall i :: 0 <= i < |ledger.records| ==> ledger.records[i].base.executionId != base.executionId
    modifies ledger
    ensures ledger.Valid() && BuiltByProcess(ledger.records)
    ensures r.Success? && record == ExecutionRecord(base, Execution(base), old(ledger.currentHead))
    ensures ledger.records == old(ledger.records) + [record]
  {
    record := ExecutionRecord(base, Execution(base), ledger.currentHead);
    r := ledger.Append(record);
    ghost var before := old(ledger.records);
    assert forall i :: 0 <= i <= |before| ==> ledger.records[..i] == before[..i];
    assert before[..|before|] == before;
  }

  predicate VerifyExecution(record: ExecutionRecord) {
    record.executionHash == Execution(record.base)
  }

  /** The hash must be that of exactly these fields: none of them can change while the hash stays. */
  lemma {:induction false} FieldsAreChecked(record: ExecutionRecord, changed: ExecutionBase)
    ensures VerifyExecution(record) <==> record.executionHash.Execution? && record.executionHash.base == record.base
    ensures VerifyExecution(record) && VerifyExecution(record.(base := changed)) ==> changed == record.base
  {
  }

  ghost predicate IsFirst(records: seq<ExecutionRecord>, id: string, i: nat) {
    && i < |records| && records[i].base.executionId == id
    && forall k :: 0 <= k < i ==> records[k].base.executionId != id
  }

  /** The chain hash before record i, if the ledger stores it. */
  function PreviousHead(hashes: seq<Digest>, i: nat): Option<Digest> {
    if i == 0 then Some(GENESIS) else if i - 1 < |hashes| then Some(hashes[i - 1]) else None
  }

  /** What the lineage check says of a record whose id is first found at i; None stands for the IndexError raised
      when the chain hash before it is not stored. */
  function LineageAt(record: ExecutionRecord, hashes: seq<Digest>, i: nat): Option<bool> {
    var previous := PreviousHead(hashes, i);
    if previous == None then None else Some(record.previousExecutionHash == previous.value)
  }

  ghost predicate Unknown(records: seq<ExecutionRecord>, id: string) {
    forall k :: 0 <= k < |records| ==> records[k].base.executionId != id
  }

  method VerifyLineage(record: ExecutionRecord, ledger: EvidenceLedger) returns (r: Option<bool>)
    ensures Unknown(ledger.records, record.base.executionId) ==> r == Some(false)
    ensures forall i: nat :: IsFirst(ledger.records, record.base.executionId, i) ==>
      && (r == None <==> |ledger.evidenceHashes| < i)
      && (r.Some? ==>
           (r.value <==> record.previousExecutionHash == if i == 0 then GENESIS else ledger.evidenceHashes[i - 1]))
    ensures forall i: nat :: IsFirst(ledger.records, record.base.executionId, i) ==>
      r == LineageAt(record, ledger.evidenceHashes, i)
  {
    for i := 0 to |ledger.records|
      invariant forall k :: 0 <= k < i ==> ledger.records[k].base.executionId != record.base.executionId
    {
      if ledger.records[i].base.executionId == record.base.executionId {
        if i == 0 {
          return Some(record.previousExecutionHash == GENESIS);
        }
        if i - 1 >= |ledger.evidenceHashes| {
          return None;
        }
        return Some(record.previousExecutionHash == ledger.evidenceHashes[i - 1]);
      }
    }
    r := Some(false);
  }

  datatype Certificate = Certificate(
    record: ExecutionRecord,
    chainHash: Digest,
    merkleRoot: Digest,
    ledgerSequence: nat)

  const NOT_FOUND := "Record not found in ledger"
  const INDEX_ERROR := "list index out of range"

  ghost function CertificateAt(record: ExecutionRecord, hashes: seq<Digest>, i: nat): Result<Certificate> {
    var previous := PreviousHead(hashes, i);
    if previous == None then Failure(INDEX_ERROR)
    else Success(Certificate(record, Pair(previous.value, record.executionHash), PublishedRoot(hashes), i + 1))
  }

  method ExecutionCertificate(record: ExecutionRecord, ledger: EvidenceLedger) returns (r: Result<Certificate>)
    ensures Unknown(ledger.records, record.base.executionId) ==> r == Failure(NOT_FOUND)
    ensures forall i: nat :: IsFirst(ledger.records, record.base.executionId, i) ==>
      && (r == Failure(INDEX_ERROR) <==> |ledger.evidenceHashes| < i)
      && (|ledger.evidenceHashes| >= i ==> r == Success(Certificate(
           record, Pair(if i == 0 then GENESIS else ledger.evidenceHashes[i - 1], record.executionHash),
           PublishedRoot(ledger.evidenceHashes), i + 1)))
    ensures forall i: nat :: IsFirst(ledger.records, record.base.executionId, i) ==>
      r == CertificateAt(record, ledger.evidenceHashes, i)
  {
    var index := -1;
    for i := 0 to |ledger.records|
      invariant index == -1
      invariant forall k :: 0 <= k < i ==> ledger.records[k].base.executionId != record.base.executionId
    {
      if ledger.records[i].base.executionId == record.base.executionId {
        index := i;
        break;
      }
    }
    if index == -1 {
      return Failure(NOT_FOUND);
    }
    if index > 0 && index - 1 >= |ledger.evidenceHashes| {
      return Failure(INDEX_ERROR);
    }
    var prevHead := if index == 0 then GENESIS else ledger.evidenceHashes[index - 1];
    var merkleRoot := ledger.GetMerkleRoot();
    r := Success(Certificate(record, Pair(prevHead, record.executionHash), merkleRoot, index + 1));
  }

  /** Every record of such a ledger passes both checks, and its certificate carries the stored chain
      hash and its own position. */
  method CertifyHistory(ledger: EvidenceLedger, i: nat)
    returns (executionOk: bool, lineageOk: Option<bool>, certificate: Result<Certificate>)
    requires ledger.Valid() && BuiltByProcess(ledger.records) && i < |ledger.records|
    ensures executionOk && lineageOk == Some(true)
    ensures certificate == Success(
      Certificate(ledger.records[i], ledger.evidenceHashes[i], LedgerRoot(ledger.evidenceHashes), i + 1))
  {
    BuiltRecordsPass(ledger.records, ledger.evidenceHashes, i);
    executionOk := VerifyExecution(ledger.records[i]);
    lineageOk := VerifyLineage(ledger.records[i], ledger);
    certificate := ExecutionCertificate(ledger.records[i], ledger);
  }

  lemma {:induction false} BuiltRecordsPass(records: seq<ExecutionRecord>, hashes: seq<Digest>, i: nat)
    requires BuiltByProcess(records) && PrefixOk(records, hashes, |records|) && i < |records|
    ensures IsFirst(records, records[i].base.executionId, i) && VerifyExecution(records[i])
    ensures LineageAt(records[i], hashes, i) == Some(true)
    ensures CertificateAt(records[i], hashes, i)
      == Success(Certificate(records[i], hashes[i], LedgerRoot(hashes), i + 1))
  {
    FirstIsUnique(records, i);
    StoredChainHash(records, hashes, i);
    assert records[i].previousExecutionHash == Head(records[..i]);
    assert PreviousHead(hashes, i) == Some(Head(records[..i]));
  }

  lemma {:induction false} FirstIsUnique(records: seq<ExecutionRecord>, i: nat)
    requires BuiltByProcess(records) && i < |records|
    ensures forall k: nat :: IsFirst(records, records[i].base.executionId, k) <==> k == i
  {
  }

  lemma {:induction false} StoredChainHash(records: seq<ExecutionRecord>, hashes: seq<Digest>, i: nat)
    requires PrefixOk(records, hashes, |records|) && i < |records|
    ensures Head(records[..i]) == if i == 0 then GENESIS else hashes[i - 1]
    ensures hashes[i] == Pair(Head(records[..i]), records[i].executionHash)
  {
    assert records[..i + 1][..i] == records[..i];
    if i > 0 {
      assert hashes[i - 1] == Head(records[..i - 1 + 1]);
    }
  }

  lemma {:induction false} SameHashSameRecord(a: seq<ExecutionRecord>, b: seq<ExecutionRecord>, i: nat)
    requires BuiltByProcess(a) && BuiltByProcess(b) && i < |a| && i < |b|
    requires ExecutionHashes(a) == ExecutionHashes(b)
    ensures a[i] == b[i]
  {
    assert ExecutionHashes(a)[i] == ExecutionHashes(b)[i];
    assert ExecutionHashes(a[..i]) == ExecutionHashes(a)[..i] == ExecutionHashes(b[..i]);
    HeadBinding(a[..i], b[..i]);
  }

  /** Two such ledgers with the same head hold the same records, field for field. */
  lemma {:induction false} HeadDeterminesRecords(a: seq<ExecutionRecord>, b: seq<ExecutionRecord>)
    requires BuiltByProcess(a) && BuiltByProcess(b)
    ensures Head(a) == Head(b) <==> a == b
  {
    if Head(a) == Head(b) {
      HeadBinding(a, b);
      assert |a| == |ExecutionHashes(a)| == |b|;
      forall i | 0 <= i < |a|
        ensures a[i] == b[i]
      {
        SameHashSameRecord(a, b, i);
      }
    }
  }

  /** So do two that publish the same Merkle root, as certificates and snapshots carry it. */
  lemma {:induction false} RootDeterminesRecords(
      a: seq<ExecutionRecord>, aHashes: seq<Digest>, b: seq<ExecutionRecord>, bHashes: seq<Digest>)
    requires BuiltByProcess(a) && BuiltByProcess(b) && HashesOf(aHashes, a) && HashesOf(bHashes, b)
    ensures PublishedRoot(aHashes) == PublishedRoot(bHashes) <==> a == b
  {
    RootDeterminesHistory(a, aHashes, b, bHashes);
    HeadBinding(a, b);
    HeadDeterminesRecords(a, b);
  }
}
