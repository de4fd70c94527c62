/** The Merkle tree both ledgers use: levels of digests, an odd level padded by repeating its
    last node. */
module Merkle {
  import opened Digests

  type Level = seq<Digest>

  // ---------------------------------------------------------------------------------------
  // The tree
  // ---------------------------------------------------------------------------------------

  function Pad(level: Level): (padded: Level)
    ensures |padded| % 2 == 0
  {
    if |level| % 2 == 1 then level + [level[|level| - 1]] else level
  }

  function PairUp(level: Level): Level
    requires |level| % 2 == 0
  {
    seq(|level| / 2, i requires 0 <= i < |level| / 2 => Pair(level[2 * i], level[2 * i + 1]))
  }

  function Parents(level: Level): (parents: Level)
    ensures |parents| == (|level| + 1) / 2
  {
    PairUp(Pad(level))
  }

  /** The levels from the leaves to the root, padded as they are stored. */
  function Tree(level: Level): seq<Level>
    requires level != []
    decreases |level|
  {
    if |level| == 1 then [level] else [Pad(level)] + Tree(Parents(level))
  }

  /** The same levels before padding. */
  ghost function Unpadded(level: Level): seq<Level>
    requires level != []
    decreases |level|
  {
    if |level| == 1 then [level] else [level] + Unpadded(Parents(level))
  }

  function FullTree(leaves: Level): seq<Level> {
    if leaves == [] then [] else Tree(leaves)
  }

  function Root(level: Level): Digest
    requires level != []
    decreases |level|
  {
    if |level| == 1 then level[0] else Root(Parents(level))
  }

  lemma {:induction false} TreeStep(below: seq<Level>, level: Level)
    requires |level| > 1
    ensures below + Tree(level) == (below + [Pad(level)]) + Tree(Parents(level))
  {
    assert Tree(level) == [Pad(level)] + Tree(Parents(level));
  }

  lemma {:induction false} TreeTop(level: Level)
    requires level != []
    ensures Tree(level)[|Tree(level)| - 1] == [Root(level)]
    decreases |level|
  {
    if |level| > 1 {
      TreeTop(Parents(level));
    }
  }

  lemma {:induction false} UnpaddedMatches(level: Level)
    requires level != []
    ensures |Unpadded(level)| == |Tree(level)|
    ensures Unpadded(level)[0] == level
    ensures |Unpadded(level)[|Tree(level)| - 1]| == 1
    ensures forall k :: 0 <= k < |Tree(level)| - 1 ==>
      |Unpadded(level)[k]| > 1 && Tree(level)[k] == Pad(Unpadded(level)[k])
    ensures forall k :: 0 <= k < |Tree(level)| - 1 ==>
      Unpadded(level)[k + 1] == Parents(Unpadded(level)[k])
    ensures Tree(level)[|Tree(level)| - 1] == Unpadded(level)[|Tree(level)| - 1]
    decreases |level|
  {
    if |level| > 1 {
      var up := Parents(level);
      UnpaddedMatches(up);
      forall k | 0 <= k < |Tree(level)| - 1
        ensures |Unpadded(level)[k]| > 1 && Tree(level)[k] == Pad(Unpadded(level)[k])
        ensures Unpadded(level)[k + 1] == Parents(Unpadded(level)[k])
      {
        if k > 0 {
          assert Unpadded(level)[k] == Unpadded(up)[k - 1];
          assert Unpadded(level)[k + 1] == Unpadded(up)[k];
        }
      }
    }
  }

  // ---------------------------------------------------------------------------------------
  // Height
  // ---------------------------------------------------------------------------------------

  function Pow2(k: nat): (p: nat)
    ensures p >= 1
  {
    if k == 0 then 1 else 2 * Pow2(k - 1)
  }

  function Height(n: nat): nat
    requires n > 0
  {
    if n == 1 then 0 else 1 + Height((n + 1) / 2)
  }

  /** Height(n) is the ceiling of the binary logarithm of n. */
  lemma {:induction false} HeightIsCeilLog2(n: nat)
    requires n > 0
    ensures n <= Pow2(Height(n))
    ensures n > 1 ==> Pow2(Height(n) - 1) < n
  {
    if n > 1 {
      HeightIsCeilLog2((n + 1) / 2);
    }
  }

  lemma {:induction false} TreeHeight(level: Level)
    requires level != []
    ensures |Tree(level)| == Height(|level|) + 1
    decreases |level|
  {
    if |level| > 1 {
      TreeHeight(Parents(level));
    }
  }

  // ---------------------------------------------------------------------------------------
  // Appending one leaf
  // ---------------------------------------------------------------------------------------

  /** The two levels agree except for the last node of the second, which is new or changed. */
  ghost predicate DiffersInLast(before: Level, after: Level) {
    && |before| <= |after| <= |before| + 1
    && after != []
    && before[..|after| - 1] == after[..|after| - 1]
  }

  lemma {:induction false} ParentsDifferInLast(before: Level, after: Level)
    requires before != [] && DiffersInLast(before, after)
    ensures DiffersInLast(Parents(before), Parents(after))
  {
    var p, q := Parents(before), Parents(after);
    assert |p| == (|before| + 1) / 2 && |q| == (|after| + 1) / 2;
    forall i | 0 <= i < |q| - 1
      ensures p[i] == q[i]
    {
      assert before[2 * i] == before[..|after| - 1][2 * i] == after[2 * i];
      assert before[2 * i + 1] == before[..|after| - 1][2 * i + 1] == after[2 * i + 1];
    }
    assert p[..|q| - 1] == q[..|q| - 1];
  }

  // ---------------------------------------------------------------------------------------
  // Root binding
  // ---------------------------------------------------------------------------------------

  /** The unpaired digests below a node, left to right. */
  ghost function Frontier(d: Digest): (leaves: Level)
    ensures leaves != []
  {
    match d
    case Pair(l, r) => Frontier(l) + Frontier(r)
    case _ => [d]
  }

  ghost function LevelFrontier(level: Level): Level {
    if level == [] then [] else LevelFrontier(level[..|level| - 1]) + Frontier(level[|level| - 1])
  }

  ghost predicate Unpaired(level: Level) {
    forall i :: 0 <= i < |level| ==> !level[i].Pair?
  }

  lemma {:induction false} LevelFrontierOfLeaves(level: Level)
    requires Unpaired(level)
    ensures LevelFrontier(level) == level
  {
    if level != [] {
      LevelFrontierOfLeaves(level[..|level| - 1]);
    }
  }

  lemma {:induction false} LevelFrontierSnoc(level: Level, d: Digest)
    ensures LevelFrontier(level + [d]) == LevelFrontier(level) + Frontier(d)
  {
    assert (level + [d])[..|level|] == level;
  }

  lemma {:induction false} LastPair(level: Level)
    requires |level| % 2 == 0 && level != []
    ensures PairUp(level) == PairUp(level[..|level| - 2]) + [Pair(level[|level| - 2], level[|level| - 1])]
  {
  }

  lemma {:induction false} LastTwoFrontiers(level: Level)
    requires |level| >= 2
    ensures LevelFrontier(level) == LevelFrontier(level[..|level| - 2])
      + Frontier(level[|level| - 2]) + Frontier(level[|level| - 1])
  {
    var front := level[..|level| - 1];
    assert front[..|front| - 1] == level[..|level| - 2];
  }

  lemma {:induction false} LevelFrontierOfPairs(level: Level)
    requires |level| % 2 == 0
    ensures LevelFrontier(PairUp(level)) == LevelFrontier(level)
  {
    if level != [] {
      var rest, x, y := level[..|level| - 2], level[|level| - 2], level[|level| - 1];
      LevelFrontierOfPairs(rest);
      LastPair(level);
      LevelFrontierSnoc(PairUp(rest), Pair(x, y));
      LastTwoFrontiers(level);
    }
  }

  lemma {:induction false} PaddedFrontier(level: Level)
    ensures LevelFrontier(level) <= LevelFrontier(Pad(level))
    ensures forall d :: d in LevelFrontier(Pad(level)) ==> d in LevelFrontier(level)
  {
    if |level| % 2 == 1 {
      LevelFrontierSnoc(level, level[|level| - 1]);
    }
  }

  /** Every padded copy repeats a leaf, so the frontier of a root starts with the leaves and holds
      nothing else. */
  lemma {:induction false} RootFrontier(level: Level)
    requires level != []
    ensures LevelFrontier(level) <= Frontier(Root(level))
    ensures forall d :: d in Frontier(Root(level)) ==> d in LevelFrontier(level)
    decreases |level|
  {
    if |level| == 1 {
      assert LevelFrontier(level[..0]) == [];
    } else {
      RootFrontier(Parents(level));
      LevelFrontierOfPairs(Pad(level));
      PaddedFrontier(level);
    }
  }

  ghost predicate Numbered(leaves: Level) {
    forall i :: 0 <= i < |leaves| ==> leaves[i].Leaf? && leaves[i].sequence == i
  }

  lemma {:induction false} LeavesStartFrontier(leaves: Level)
    requires leaves != [] && Unpaired(leaves)
    ensures leaves <= Frontier(Root(leaves))
    ensures forall d :: d in Frontier(Root(leaves)) ==> d in leaves
  {
    LevelFrontierOfLeaves(leaves);
    RootFrontier(leaves);
  }

  lemma {:induction false} RootBoundsLength(a: Level, b: Level)
    requires a != [] && b != [] && Numbered(a) && Numbered(b)
    requires Root(a) == Root(b)
    ensures |b| <= |a|
  {
    assert b[|b| - 1] in a by {
      LeavesStartFrontier(a);
      LeavesStartFrontier(b);
      assert b[|b| - 1] == Frontier(Root(b))[|b| - 1];
    }
  }

  /** Roots of numbered leaf lists, of any lengths, coincide only for equal lists. */
  lemma {:induction false} RootBinding(a: Level, b: Level)
    requires a != [] && b != [] && Numbered(a) && Numbered(b)
    ensures Root(a) == Root(b) <==> a == b
  {
    if Root(a) == Root(b) {
      RootBoundsLength(a, b);
      RootBoundsLength(b, a);
      LeavesStartFrontier(a);
      LeavesStartFrontier(b);
      assert a == Frontier(Root(a))[..|a|] == b;
    }
  }

  /** Without sequence numbers the padding is ambiguous: these two lists share a root. */
  lemma {:induction false} PaddingIsAmbiguousWithoutNumbers(x: Digest, y: Digest, z: Digest)
    ensures Root([x, y, z]) == Root([x, y, z, z])
    ensures [x, y, z] != [x, y, z, z]
  {
    assert Pad([x, y, z]) == [x, y, z, z] == Pad([x, y, z, z]);
  }

  // ---------------------------------------------------------------------------------------
  // Inclusion proofs
  // ---------------------------------------------------------------------------------------

  datatype Side = L | R

  datatype Sibling = Sibling(digest: Digest, side: Side)

  type Proof = seq<Sibling>

  function Combine(current: Digest, sibling: Sibling): Digest {
    if sibling.side == R then Pair(current, sibling.digest) else Pair(sibling.digest, current)
  }

  function Fold(current: Digest, proof: Proof): Digest
    decreases |proof|
  {
    if proof == [] then current else Fold(Combine(current, proof[0]), proof[1..])
  }

  /** The leaf index that the sides of a proof spell, lowest bit first. */
  function Spelled(proof: Proof): nat {
    if proof == [] then 0 else (if proof[0].side == L then 1 else 0) + 2 * Spelled(proof[1..])
  }

  function AtMost(i: nat, bound: nat): nat {
    if i < bound then i else bound
  }

  /** The leaf that position j of the padded bottom row repeats. */
  function Canonical(n: nat, j: nat): (c: nat)
    requires n > 0
    ensures c < n
    ensures j < n ==> c == j
    decreases n
  {
    if n == 1 then 0 else AtMost(2 * Canonical((n + 1) / 2, j / 2) + j % 2, n - 1)
  }

  /** The sibling of position j, read off the level before padding. */
  function SiblingOf(level: Level, j: nat): Sibling
    requires |level| > 1
  {
    var p := Canonical((|level| + 1) / 2, j / 2);
    if j % 2 == 0 then Sibling(level[AtMost(2 * p + 1, |level| - 1)], R) else Sibling(level[2 * p], L)
  }

  lemma {:induction false} ParentNode(level: Level, p: nat)
    requires p < |Parents(level)|
    ensures Parents(level)[p] == Pair(level[2 * p], level[AtMost(2 * p + 1, |level| - 1)])
  {
  }

  lemma {:induction false} CanonicalUnfolds(n: nat, j: nat)
    requires n > 1
    ensures Canonical(n, j) == AtMost(2 * Canonical((n + 1) / 2, j / 2) + j % 2, n - 1)
  {
  }

  lemma {:induction false} PairFits(n: nat, half: nat, p: nat, bit: nat)
    requires n > 1 && half == (n + 1) / 2 && p < half && bit < 2
    ensures 2 * p < n && AtMost(2 * p + bit, n - 1) == if bit == 0 then 2 * p else AtMost(2 * p + 1, n - 1)
  {
  }

  /** Two digests hash to the parent of a pair exactly if they are the pair. */
  lemma {:induction false} CombineIsPair(level: Level, p: nat, x: Digest, sibling: Sibling)
    requires 2 * p < |level| && p < |Parents(level)|
    ensures
      var right := level[AtMost(2 * p + 1, |level| - 1)];
      Combine(x, sibling) == Parents(level)[p] <==>
        if sibling.side == R then x == level[2 * p] && sibling.digest == right
        else x == right && sibling.digest == level[2 * p]
  {
    ParentNode(level, p);
  }

  /** A node beside its sibling makes up their parent, and nothing else does. */
  lemma {:induction false} CombineIsParent(level: Level, j: nat, x: Digest, sibling: Sibling)
    requires |level| > 1 && j % 2 == (if sibling.side == L then 1 else 0)
    ensures Combine(x, sibling) == Parents(level)[Canonical((|level| + 1) / 2, j / 2)]
      <==> x == level[Canonical(|level|, j)] && sibling == SiblingOf(level, j)
  {
    var n, half := |level|, (|level| + 1) / 2;
    var p := Canonical(half, j / 2);
    CanonicalUnfolds(n, j);
    PairFits(n, half, p, j % 2);
    CombineIsPair(level, p, x, sibling);
  }

  /** The siblings between position j of the padded bottom row and the root. */
  function PathTo(level: Level, j: nat): Proof
    requires level != []
    decreases |level|
  {
    if |level| == 1 then []
    else
      [SiblingOf(level, j)] + PathTo(Parents(level), j / 2)
  }

  lemma {:induction false} PathLength(level: Level, j: nat)
    requires level != []
    ensures |PathTo(level, j)| == Height(|level|)
    decreases |level|
  {
    if |level| > 1 {
      PathLength(Parents(level), j / 2);
      assert PathTo(level, j) == [SiblingOf(level, j)] + PathTo(Parents(level), j / 2);
    }
  }

  lemma {:induction false} HalfFits(j: nat, k: nat)
    requires k > 0 && j < Pow2(k)
    ensures j / 2 < Pow2(k - 1)
    ensures j == (if j % 2 == 0 then 0 else 1) + 2 * (j / 2)
  {
  }

  lemma {:induction false} SpelledCons(sibling: Sibling, rest: Proof)
    ensures Spelled([sibling] + rest) == (if sibling.side == L then 1 else 0) + 2 * Spelled(rest)
  {
    assert ([sibling] + rest)[1..] == rest;
  }

  lemma {:induction false} SideOfSibling(level: Level, j: nat)
    requires |level| > 1
    ensures SiblingOf(level, j).side == if j % 2 == 0 then R else L
  {
  }

  lemma {:induction false} PathSpells(level: Level, j: nat)
    requires level != [] && j < Pow2(Height(|level|))
    ensures Spelled(PathTo(level, j)) == j
    decreases |level|
  {
    if |level| > 1 {
      var up := Parents(level);
      HalfFits(j, Height(|level|));
      PathSpells(up, j / 2);
      SideOfSibling(level, j);
      SpelledCons(SiblingOf(level, j), PathTo(up, j / 2));
    }
  }

  lemma {:induction false} PathReachesRoot(level: Level, j: nat)
    requires level != []
    ensures Fold(level[Canonical(|level|, j)], PathTo(level, j)) == Root(level)
    decreases |level|
  {
    if |level| > 1 {
      var path := PathTo(level, j);
      PathReachesRoot(Parents(level), j / 2);
      assert path[1..] == PathTo(Parents(level), j / 2);
      CombineIsParent(level, j, level[Canonical(|level|, j)], path[0]);
    }
  }

  /** The tree of two leaves, which fixes what the two sides mean. */
  lemma {:induction false} TwoLeaves(x: Digest, y: Digest)
    ensures Root([x, y]) == Pair(x, y)
    ensures PathTo([x, y], 0) == [Sibling(y, R)] && PathTo([x, y], 1) == [Sibling(x, L)]
    ensures Fold(x, [Sibling(y, R)]) == Pair(x, y) == Fold(y, [Sibling(x, L)])
  {
    assert Pad([x, y]) == [x, y] && Parents([x, y]) == [Pair(x, y)];
    assert PathTo([Pair(x, y)], 0) == [];
  }

  lemma {:induction false} SpelledStep(proof: Proof)
    requires proof != []
    ensures Spelled(proof) / 2 == Spelled(proof[1..])
    ensures Spelled(proof) % 2 == (if proof[0].side == L then 1 else 0)
  {
  }

  /** A proof of full height that folds to the root is the stored path of the position it spells. */
  lemma {:induction false} FoldToRootIsPath(level: Level, x: Digest, proof: Proof)
    requires level != [] && |proof| == Height(|level|)
    requires Fold(x, proof) == Root(level)
    ensures x == level[Canonical(|level|, Spelled(proof))]
    ensures proof == PathTo(level, Spelled(proof))
    decreases |level|
  {
    if |level| > 1 {
      SpelledStep(proof);
      var j, up, rest := Spelled(proof), Parents(level), proof[1..];
      FoldToRootIsPath(up, Combine(x, proof[0]), rest);
      CombineIsParent(level, j, x, proof[0]);
      assert PathTo(level, j) == [SiblingOf(level, j)] + PathTo(up, j / 2);
    }
  }

  ghost predicate Perfect(d: Digest, depth: nat) {
    if depth == 0 then !d.Pair? else d.Pair? && Perfect(d.left, depth - 1) && Perfect(d.right, depth - 1)
  }

  lemma {:induction false} RootIsPerfect(level: Level, depth: nat)
    requires level != [] && forall i :: 0 <= i < |level| ==> Perfect(level[i], depth)
    ensures Perfect(Root(level), depth + Height(|level|))
    decreases |level|
  {
    if |level| > 1 {
      RootIsPerfect(Parents(level), depth + 1);
    }
  }

  lemma {:induction false} FoldEndsWithLast(x: Digest, proof: Proof)
    requires proof != []
    ensures Fold(x, proof) == Combine(Fold(x, proof[..|proof| - 1]), proof[|proof| - 1])
    decreases |proof|
  {
    if |proof| > 1 {
      var rest := proof[1..];
      FoldEndsWithLast(Combine(x, proof[0]), rest);
      assert proof[..|proof| - 1][1..] == rest[..|rest| - 1];
    }
  }

  lemma {:induction false} ProofHasTreeHeight(x: Digest, proof: Proof, depth: nat)
    requires !x.Pair? && Perfect(Fold(x, proof), depth)
    ensures |proof| == depth
    decreases |proof|
  {
    if proof != [] {
      FoldEndsWithLast(x, proof);
      ProofHasTreeHeight(x, proof[..|proof| - 1], depth - 1);
    }
  }

  /** What a leaf digest and a proof must be to verify against the root: nothing else passes. */
  lemma {:induction false} ProofExact(leaves: Level, x: Digest, proof: Proof)
    requires leaves != [] && Unpaired(leaves) && !x.Pair?
    ensures Fold(x, proof) == Root(leaves) <==>
      && |proof| == Height(|leaves|)
      && x == leaves[Canonical(|leaves|, Spelled(proof))]
      && proof == PathTo(leaves, Spelled(proof))
  {
    if Fold(x, proof) == Root(leaves) {
      RootIsPerfect(leaves, 0);
      ProofHasTreeHeight(x, proof, Height(|leaves|));
      FoldToRootIsPath(leaves, x, proof);
    } else if x == leaves[Canonical(|leaves|, Spelled(proof))] && proof == PathTo(leaves, Spelled(proof)) {
      PathReachesRoot(leaves, Spelled(proof));
    }
  }

  /** A verified numbered leaf has the number its proof spells, unless the sides spell a padded
      copy, which stands for the leaf it repeats. */
  lemma {:induction false} ProofSpellsSequence(leaves: Level, x: Digest, proof: Proof)
    requires leaves != [] && Numbered(leaves) && x.Leaf?
    requires Fold(x, proof) == Root(leaves)
    ensures Spelled(proof) < |leaves| <==> x.sequence == Spelled(proof)
    ensures x.sequence == Canonical(|leaves|, Spelled(proof))
  {
    ProofExact(leaves, x, proof);
  }

  /** With three leaves, the sides of index 3 verify leaf 2. */
  lemma {:induction false} PaddedCopyVerifies(x: Digest, y: Digest, z: Digest)
    requires Unpaired([x, y, z])
    ensures var proof := PathTo([x, y, z], 3);
      Fold(z, proof) == Root([x, y, z]) && Spelled(proof) == 3
  {
    assert Canonical(3, 3) == 2;
    PathReachesRoot([x, y, z], 3);
    PathSpells([x, y, z], 3);
  }
}
