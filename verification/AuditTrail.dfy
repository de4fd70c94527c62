/** audit_trail.py: the append-only log whose Merkle tree is updated in place. */
module AuditTrail {
  import opened Digests
  import opened Merkle

  /** The timestamp of an entry is outside every hash and is not modelled. */
  datatype AuditEntry = AuditEntry(
    sequence: int,
    eventType: string,
    eventHash: Digest,
    nodeId: string,
    eventData: string)
  {
    function LeafHash(): Digest {
      Leaf(sequence, eventType, eventHash, nodeId)
    }
  }

  function LeafHashes(entries: seq<AuditEntry>): Level {
    seq(|entries|, i requires 0 <= i < |entries| => entries[i].LeafHash())
  }

  /** The fields that a leaf commits to. */
  predicate SameHashedFields(a: AuditEntry, b: AuditEntry) {
    a.sequence == b.sequence && a.eventType == b.eventType && a.eventHash == b.eventHash && a.nodeId == b.nodeId
  }

  ghost predicate SameHistory(a: seq<AuditEntry>, b: seq<AuditEntry>) {
    |a| == |b| && forall i :: 0 <= i < |a| ==> SameHashedFields(a[i], b[i])
  }

  lemma {:induction false} LeavesCoverFields(a: seq<AuditEntry>, b: seq<AuditEntry>)
    ensures LeafHashes(a) == LeafHashes(b) <==> SameHistory(a, b)
  {
    if LeafHashes(a) == LeafHashes(b) {
      assert |a| == |LeafHashes(a)| == |b|;
      forall i | 0 <= i < |a|
        ensures SameHashedFields(a[i], b[i])
      {
        assert LeafHashes(a)[i] == LeafHashes(b)[i];
      }
    }
  }

  datatype IntegrityError = Gap(index: nat, found: int) | DuplicateSequence | RootMismatch

  // ---------------------------------------------------------------------------------------
  // Merkle helpers
  // ---------------------------------------------------------------------------------------

  method BuildMerkleTree(leaves: Level) returns (levels: seq<Level>)
    ensures levels == FullTree(leaves)
  {
    if leaves == [] {
      return [];
    }
    var working := leaves;
    levels := [working];
    while |working| > 1
      invariant working != [] && levels != [] && levels[|levels| - 1] == working
      invariant levels[..|levels| - 1] + Tree(working) == Tree(leaves)
      decreases |working|
    {
      ghost var done, level := levels[..|levels| - 1], working;
      if |working| % 2 == 1 {
        working := working + [working[|working| - 1]];
        levels := levels[|levels| - 1 := working];
      }
      assert levels == done + [Pad(level)];
      working := PairNodes(working);
      TreeStep(done, level);
      levels := levels + [working];
      assert levels[..|levels| - 1] == done + [Pad(level)];
    }
  }

  method PairNodes(working: Level) returns (next: Level)
    requires |working| % 2 == 0
    ensures next == PairUp(working)
  {
    next := [];
    var i := 0;
    while i < |working|
      invariant 0 <= i <= |working| && i % 2 == 0
      invariant next == PairUp(working)[..i / 2]
    {
      next := next + [Pair(working[i], working[i + 1])];
      i := i + 2;
    }
  }

  lemma {:induction false} SiblingInPaddedLevel(level: Level, idx: nat)
    requires |level| > 1 && idx < |Pad(level)|
    ensures idx / 2 < |Parents(level)|
    ensures SiblingOf(level, idx) ==
      if idx % 2 == 0 then Sibling(Pad(level)[idx + 1], R) else Sibling(Pad(level)[idx - 1], L)
  {
    var p := idx / 2;
    assert Canonical((|level| + 1) / 2, p) == p;
    if idx % 2 == 0 {
      assert Pad(level)[idx + 1] == level[AtMost(idx + 1, |level| - 1)];
    } else {
      assert Pad(level)[idx - 1] == level[2 * p];
    }
  }

  lemma {:induction false} PathStep(level: Level, idx: nat, proof: Proof)
    requires |level| > 1
    ensures proof + PathTo(level, idx) == (proof + [SiblingOf(level, idx)]) + PathTo(Parents(level), idx / 2)
  {
    assert PathTo(level, idx) == [SiblingOf(level, idx)] + PathTo(Parents(level), idx / 2);
  }

  method MerkleProof(tree: seq<Level>, leafIndex: int, ghost leaves: Level) returns (proof: Proof)
    requires tree == FullTree(leaves)
    ensures tree != [] && 0 <= leafIndex < |tree[0]| ==> proof == PathTo(leaves, leafIndex)
    ensures !(tree != [] && 0 <= leafIndex < |tree[0]|) ==> proof == []
  {
    if |tree| == 0 || leafIndex < 0 || leafIndex >= |tree[0]| {
      return [];
    }
    proof := [];
    UnpaddedMatches(leaves);
    ghost var levels := Unpadded(leaves);
    var idx: nat := leafIndex;
    for k := 0 to |tree| - 1
      invariant idx < |tree[k]|
      invariant proof + PathTo(levels[k], idx) == PathTo(leaves, leafIndex)
    {
      SiblingInPaddedLevel(levels[k], idx);
      PathStep(levels[k], idx, proof);
      var padded := Pad(tree[k]);
      var sibling := if idx % 2 == 0 then Sibling(padded[idx + 1], R) else Sibling(padded[idx - 1], L);
      proof := proof + [sibling];
      idx := idx / 2;
    }
    assert PathTo(levels[|tree| - 1], idx) == [];
  }

  method VerifyMerkleProof(leafHash: Digest, proof: Proof, expectedRoot: Digest) returns (ok: bool)
    ensures ok <==> Fold(leafHash, proof) == expectedRoot
  {
    var current := leafHash;
    for i := 0 to |proof|
      invariant Fold(current, proof[i..]) == Fold(leafHash, proof)
    {
      assert proof[i..][1..] == proof[i + 1..];
      if proof[i].side == R {
        current := Pair(current, proof[i].digest);
      } else {
        current := Pair(proof[i].digest, current);
      }
    }
    ok := current == expectedRoot;
  }

  // ---------------------------------------------------------------------------------------
  // Tamper evidence
  // ---------------------------------------------------------------------------------------

  function RootOrNone(leaves: Level): Digest {
    if leaves == [] then NO_DIGEST else Root(leaves)
  }

  lemma {:induction false} RootIsHash(leaves: Level)
    requires leaves != [] && forall i :: 0 <= i < |leaves| ==> !leaves[i].Text?
    ensures !Root(leaves).Text?
    decreases |leaves|
  {
    if |leaves| > 1 {
      RootIsHash(Parents(leaves));
    }
  }

  /** Replacement leaves of any number pass the sequence check and match the committed root only if
      they are the committed leaves. */
  lemma {:induction false} TamperEvidence(replaced: Level, committed: Level)
    requires replaced != [] && Numbered(committed)
    requires forall i :: 0 <= i < |replaced| ==> replaced[i].Leaf?
    ensures Numbered(replaced) && Root(replaced) == RootOrNone(committed) <==> replaced == committed
  {
    RootIsHash(replaced);
    if Numbered(replaced) && committed != [] {
      RootBinding(replaced, committed);
    }
  }

  /** The two tests of a non-empty trail together accept exactly the original history. */
  lemma {:induction false} HistoryIsTested(entries: seq<AuditEntry>, original: seq<AuditEntry>)
    requires entries != [] && Numbered(LeafHashes(original))
    ensures
      (forall i :: 0 <= i < |entries| ==> entries[i].sequence == i)
      && Root(LeafHashes(entries)) == RootOrNone(LeafHashes(original))
      <==> SameHistory(entries, original)
  {
    var leaves := LeafHashes(entries);
    LeavesCoverFields(entries, original);
    TamperEvidence(leaves, LeafHashes(original));
    assert forall i :: 0 <= i < |entries| ==> leaves[i].sequence == entries[i].sequence;
  }

  lemma {:induction false} OwnPathVerifies(leaves: Level, x: Digest, n: nat)
    requires n < |leaves| && Numbered(leaves) && x.Leaf?
    ensures Fold(x, PathTo(leaves, n)) == Root(leaves) <==> leaves[n] == x
  {
    HeightIsCeilLog2(|leaves|);
    PathSpells(leaves, n);
    PathLength(leaves, n);
    ProofExact(leaves, x, PathTo(leaves, n));
  }

  lemma {:induction false} LaterNumberFails(leaves: Level, x: Digest, proof: Proof)
    requires leaves != [] && Numbered(leaves) && x.Leaf? && x.sequence >= |leaves|
    ensures Fold(x, proof) != Root(leaves)
  {
    ProofExact(leaves, x, proof);
    var c := Canonical(|leaves|, Spelled(proof));
    assert leaves[c].sequence == c;
  }

  lemma {:induction false} BottomRow(leaves: Level)
    requires leaves != []
    ensures |FullTree(leaves)[0]| >= |leaves|
  {
  }

  /** Against a stored tree the proof for a leaf's own number verifies exactly the leaf stored under that number;
      numbers of padded or missing leaves verify nothing. */
  lemma {:induction false} OnlyOriginalsVerify(leaves: Level, tree: seq<Level>, x: Digest, proof: Proof)
    requires Numbered(leaves) && tree == FullTree(leaves) && x.Leaf? && x.sequence >= 0
    requires proof == if tree != [] && x.sequence < |tree[0]| then PathTo(leaves, x.sequence) else []
    ensures Fold(x, proof) == RootOrNone(leaves) <==> x.sequence < |leaves| && leaves[x.sequence] == x
  {
    if leaves != [] {
      BottomRow(leaves);
      if x.sequence < |leaves| {
        OwnPathVerifies(leaves, x, x.sequence);
      } else {
        LaterNumberFails(leaves, x, proof);
      }
    }
  }

  // ---------------------------------------------------------------------------------------
  // Duplicate sequence numbers
  // ---------------------------------------------------------------------------------------

  ghost predicate HasDuplicates(s: seq<int>) {
    exists i, j :: 0 <= i < j < |s| && s[i] == s[j]
  }

  /** The size of the set of numbers tells whether any repeats. */
  lemma {:induction false} SetSizeShowsDuplicates(s: seq<int>)
    ensures |set x | x in s| <= |s|
    ensures |set x | x in s| != |s| <==> HasDuplicates(s)
  {
    if s != [] {
      var front, last := s[..|s| - 1], s[|s| - 1];
      SetSizeShowsDuplicates(front);
      assert (set x | x in s) == (set x | x in front) + {last};
      if last in front {
        var i :| 0 <= i < |front| && front[i] == last;
        assert s[i] == s[|s| - 1];
        assert (set x | x in s) == (set x | x in front);
      } else if HasDuplicates(front) {
        var i, j :| 0 <= i < j < |front| && front[i] == front[j];
        assert s[i] == s[j];
      }
    }
  }

  function Sequences(entries: seq<AuditEntry>): seq<int> {
    seq(|entries|, i requires 0 <= i < |entries| => entries[i].sequence)
  }

  ghost predicate SomeNumberRepeats(entries: seq<AuditEntry>) {
    exists i, j :: 0 <= i < j < |entries| && entries[i].sequence == entries[j].sequence
  }

  lemma {:induction false} DuplicatesOfEntries(entries: seq<AuditEntry>)
    ensures HasDuplicates(Sequences(entries)) <==> SomeNumberRepeats(entries)
  {
    var s := Sequences(entries);
    if i, j :| 0 <= i < j < |entries| && entries[i].sequence == entries[j].sequence {
      assert s[i] == s[j];
    }
    if i, j :| 0 <= i < j < |s| && s[i] == s[j] {
      assert entries[i].sequence == entries[j].sequence;
    }
  }

  /** Exactly the misplaced sequence numbers are reported, and a duplicate exactly if there is one. */
  ghost predicate ReportsSequences(entries: seq<AuditEntry>, errors: seq<IntegrityError>) {
    && (forall i :: 0 <= i < |entries| ==>
         (Gap(i, entries[i].sequence) in errors <==> entries[i].sequence != i))
    && (forall e :: e in errors && e.Gap? ==> e.index < |entries| && e.found == entries[e.index].sequence)
    && (DuplicateSequence in errors <==> SomeNumberRepeats(entries))
  }

  lemma {:induction false} MismatchReportsNoSequence(entries: seq<AuditEntry>, errors: seq<IntegrityError>)
    requires ReportsSequences(entries, errors)
    ensures ReportsSequences(entries, errors + [RootMismatch])
  {
  }

  // ---------------------------------------------------------------------------------------
  // The trail
  // ---------------------------------------------------------------------------------------

  class MerkleAuditTrail {
    var entries: seq<AuditEntry>
    var tree: seq<Level>

    /** The stored tree commits to these leaves. */
    ghost predicate Commits(leaves: Level)
      reads this
    {
      Numbered(leaves) && tree == FullTree(leaves)
    }

    ghost predicate Valid()
      reads this
    {
      Commits(LeafHashes(entries))
    }

    constructor ()
      ensures Valid() && entries == []
    {
      entries, tree := [], [];
    }

    method Append(eventType: string, eventData: string, nodeId: string)
      returns (entry: AuditEntry, ghost hashes: nat)
      requires Valid()
      modifies this
      ensures Valid()
      ensures entry == AuditEntry(|old(entries)|, eventType, Json(eventData), nodeId, eventData)
      ensures entries == old(entries) + [entry]
      ensures hashes == Height(|entries|)
    {
      entry := AuditEntry(|entries|, eventType, Json(eventData), nodeId, eventData);
      entries := entries + [entry];
      assert entries[..|entries| - 1] == old(entries);
      hashes := RebuildTree();
      assert LeafHashes(entries)[..|entries| - 1] == LeafHashes(old(entries));
      assert Numbered(LeafHashes(entries)) by {
        forall i | 0 <= i < |entries|
          ensures LeafHashes(entries)[i].Leaf? && LeafHashes(entries)[i].sequence == i
        {
          if i < |entries| - 1 {
            assert LeafHashes(entries)[i] == LeafHashes(old(entries))[i];
          }
        }
      }
    }

    /** Drops the padding node of every level. */
    method RemovePadding(count: nat, ghost leaves: Level)
      requires leaves != [] && tree == Tree(leaves) && count == |leaves|
      modifies this`tree
      ensures tree == Unpadded(leaves)
    {
      ghost var bare := Unpadded(leaves);
      UnpaddedMatches(leaves);
      var count := count;
      for k := 0 to |tree|
        invariant |tree| == |bare| && (k < |bare| ==> count == |bare[k]|)
        invariant forall j :: 0 <= j < k ==> tree[j] == bare[j]
        invariant forall j :: k <= j < |bare| ==> tree[j] == Tree(leaves)[j]
      {
        if count % 2 == 1 && |tree[k]| > count {
          tree := tree[k := tree[k][..|tree[k]| - 1]];
        }
        assert tree[k] == bare[k];
        count := (count + 1) / 2;
      }
    }

    /** Pads level i again and writes the parent of its last pair into level i + 1. */
    method UpdateParent(i: nat, ghost level: Level, ghost above: Level)
      requires i + 1 < |tree| && level == tree[i] && |level| > 1
      requires above == tree[i + 1] && DiffersInLast(above, Parents(level))
      modifies this`tree
      ensures tree == old(tree)[i := Pad(level)][i + 1 := Parents(level)]
    {
      if |tree[i]| % 2 == 1 {
        tree := tree[i := tree[i] + [tree[i][|tree[i]| - 1]]];
      }
      var padded := tree[i];
      var parentIndex := |padded| / 2 - 1;
      var parent := Pair(padded[|padded| - 2], padded[|padded| - 1]);
      assert parent == Parents(level)[parentIndex];
      var next := tree[i + 1];
      if parentIndex < |next| {
        tree := tree[i + 1 := next[parentIndex := parent]];
      } else {
        tree := tree[i + 1 := next + [parent]];
      }
      assert tree[i + 1] == Parents(level);
    }

    /** Brings the tree up to date with the last entry. `hashes` counts the parent hashes computed. */
    method RebuildTree() returns (ghost hashes: nat)
      requires entries != [] && tree == FullTree(LeafHashes(entries[..|entries| - 1]))
      modifies this`tree
      ensures tree == FullTree(LeafHashes(entries))
      ensures hashes == Height(|entries|)
    {
      hashes := 0;
      ghost var leaves := LeafHashes(entries);
      if tree == [] {
        tree := [[entries[|entries| - 1].LeafHash()]];
        assert |entries| == 1 && leaves == [entries[0].LeafHash()];
        return;
      }
      var leafHash := entries[|entries| - 1].LeafHash();
      ghost var before := LeafHashes(entries[..|entries| - 1]);
      ghost var bare := Unpadded(before);
      RemovePadding(|entries| - 1, before);
      UnpaddedMatches(before);
      tree := tree[0 := tree[0] + [leafHash]];
      assert tree[0] == leaves && leaves[..|leaves| - 1] == before;

      hashes := UpdatePath(before, leaves);
      hashes := AddRootLevels(leaves, hashes);
      TreeHeight(leaves);
    }

    /** Rewrites the nodes above the new leaf, up to the old top level. */
    method UpdatePath(ghost before: Level, ghost leaves: Level) returns (ghost hashes: nat)
      requires before != [] && leaves != [] && DiffersInLast(before, leaves)
      requires tree == Unpadded(before)[0 := leaves]
      modifies this`tree
      ensures tree != [] && hashes == |tree| - 1
      ensures 1 <= |tree[|tree| - 1]| <= 2
      ensures tree[..|tree| - 1] + Tree(tree[|tree| - 1]) == Tree(leaves)
    {
      hashes := 0;
      UnpaddedMatches(before);
      ghost var bare := Unpadded(before);
      assert tree[..0] + Tree(tree[0]) == Tree(leaves);
      for i := 0 to |tree| - 1
        invariant |tree| == |bare| && hashes == i
        invariant forall j :: i < j < |bare| ==> tree[j] == bare[j]
        invariant DiffersInLast(bare[i], tree[i])
        invariant tree[..i] + Tree(tree[i]) == Tree(leaves)
      {
        ghost var done, level := tree[..i], tree[i];
        ParentsDifferInLast(bare[i], level);
        UpdateParent(i, level, bare[i + 1]);
        hashes := hashes + 1;
        assert tree[..i + 1] == done + [Pad(level)];
        TreeStep(done, level);
      }
    }

    /** A level that has grown to two nodes gets a parent. A level never grows by more, so the padding
        branch of the loop is dead. */
    method AddRootLevels(ghost leaves: Level, ghost counted: nat) returns (ghost hashes: nat)
      requires leaves != [] && tree != [] && counted == |tree| - 1
      requires 1 <= |tree[|tree| - 1]| <= 2
      requires tree[..|tree| - 1] + Tree(tree[|tree| - 1]) == Tree(leaves)
      modifies this`tree
      ensures tree == Tree(leaves)
      ensures hashes == |tree| - 1
    {
      hashes := counted;
      var top := tree[|tree| - 1];
      while |top| > 1
        invariant tree != [] && top == tree[|tree| - 1] && 1 <= |top| <= 2
        invariant tree[..|tree| - 1] + Tree(top) == Tree(leaves)
        invariant hashes == |tree| - 1
        decreases |top|
      {
        if |top| % 2 == 1 {
          assert false;
        }
        var root := Pair(top[|top| - 2], top[|top| - 1]);
        hashes := hashes + 1;
        assert Parents(top) == [root];
        assert tree == tree[..|tree| - 1] + [top];
        tree := tree + [[root]];
        top := tree[|tree| - 1];
      }
      assert tree == tree[..|tree| - 1] + Tree(top);
    }

    function RootHash(): Digest
      requires tree == [] || tree[|tree| - 1] != []
      reads this
    {
      if tree == [] then NO_DIGEST else tree[|tree| - 1][0]
    }

    lemma {:induction false} RootHashIsRoot(leaves: Level)
      requires tree == FullTree(leaves)
      ensures tree == [] || tree[|tree| - 1] != []
      ensures RootHash() == RootOrNone(leaves)
    {
      if leaves != [] {
        TreeTop(leaves);
      }
    }

    /** The entries may have been replaced by anything; the tree is the one stored for the original ones, which are
        the present ones in a trail that nobody has touched. */
    method VerifyInclusion(entry: AuditEntry, ghost original: seq<AuditEntry>) returns (ok: bool)
      requires Commits(LeafHashes(original))
      ensures ok <==>
        && 0 <= entry.sequence < |entries| && SameHashedFields(entries[entry.sequence], entry)
        && entry.sequence < |original| && SameHashedFields(original[entry.sequence], entry)
    {
      if entry.sequence < 0 || entry.sequence >= |entries| {
        return false;
      }
      if entries[entry.sequence].LeafHash() != entry.LeafHash() {
        return false;
      }
      ghost var leaves := LeafHashes(original);
      RootHashIsRoot(leaves);
      var proof := MerkleProof(tree, entry.sequence, leaves);
      ok := VerifyMerkleProof(entry.LeafHash(), proof, RootHash());
      OnlyOriginalsVerify(leaves, tree, entry.LeafHash(), proof);
    }

    /** The entries may have been replaced by anything; the tree is the one stored for the original ones. */
    method VerifyIntegrity(ghost original: seq<AuditEntry>) returns (passed: bool, errors: seq<IntegrityError>)
      requires Commits(LeafHashes(original))
      ensures passed <==> errors == []
      ensures entries == [] ==> passed
      ensures entries != [] ==> (passed <==> SameHistory(entries, original))
      ensures ReportsSequences(entries, errors)
      ensures entries != [] ==>
        (RootMismatch in errors <==> Root(LeafHashes(entries)) != RootOrNone(LeafHashes(original)))
    {
      if entries == [] {
        return true, [];
      }
      errors := SequenceErrors();
      var leaves := LeafHashes(entries);
      var rebuilt := BuildMerkleTree(leaves);
      RootHashIsRoot(LeafHashes(original));
      TreeTop(leaves);
      HistoryIsTested(entries, original);
      if rebuilt[|rebuilt| - 1][0] != RootHash() {
        MismatchReportsNoSequence(entries, errors);
        errors := errors + [RootMismatch];
      }
      passed := |errors| == 0;
    }

    method SequenceErrors() returns (errors: seq<IntegrityError>)
      ensures ReportsSequences(entries, errors)
      ensures RootMismatch !in errors
      ensures errors == [] <==> forall i :: 0 <= i < |entries| ==> entries[i].sequence == i
    {
      errors := [];
      for i := 0 to |entries|
        invariant forall k :: 0 <= k < i ==>
          (Gap(k, entries[k].sequence) in errors <==> entries[k].sequence != k)
        invariant forall e :: e in errors ==> e.Gap? && e.index < i && e.found == entries[e.index].sequence
        invariant errors == [] <==> forall k :: 0 <= k < i ==> entries[k].sequence == k
      {
        if entries[i].sequence != i {
          errors := errors + [Gap(i, entries[i].sequence)];
        }
      }
      var seqs := Sequences(entries);
      SetSizeShowsDuplicates(seqs);
      DuplicatesOfEntries(entries);
      if |seqs| != |set x | x in seqs| {
        errors := errors + [DuplicateSequence];
      }
    }
  }
}
