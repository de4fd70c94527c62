/** quantum_network_contract.py: pairs whose fidelity decays, and the pool they are reserved from. The clock
    enters as arguments, and the exponential as any decay function. */
module Entanglement {
  import opened Wrappers

  datatype EntanglementPair = EntanglementPair(
    id: string,
    nodeA: string,
    nodeB: string,
    initialFidelity: real,
    createdAt: real,
    coherenceMs: real,
    consumed: bool,
    consumedAt: Option<real>)

  type Decay = real -> real

  /** What the proofs need of exp(-x) for positive x. */
  ghost predicate Decays(decay: Decay) {
    && (forall x :: 0.0 < x ==> 0.0 <= decay(x) <= 1.0)
    && (forall x, y :: 0.0 < x <= y ==> decay(y) <= decay(x))
  }

  function Clamped(x: real): real {
    if x > 1.0 then 1.0 else if x < 0.5 then 0.5 else x
  }

  function Mixed(above: real, remaining: real): real {
    Clamped(0.5 + above * remaining)
  }

  function CurrentFidelity(decay: Decay, pair: EntanglementPair, now: real): real {
    var elapsed := (now - pair.createdAt) * 1000.0;
    if pair.consumed then 0.0
    else if elapsed <= 0.0 then pair.initialFidelity
    else if pair.coherenceMs <= 0.0 then 0.5
    else Mixed(pair.initialFidelity - 0.5, decay(elapsed / pair.coherenceMs))
  }

  predicate IsExpired(decay: Decay, pair: EntanglementPair, minFidelity: real, now: real) {
    pair.consumed || CurrentFidelity(decay, pair, now) < minFidelity
  }

  lemma {:induction false} Product(x: real, y: real)
    requires x >= 0.0 && y >= 0.0
    ensures x * y >= 0.0
  {
  }

  lemma {:induction false} MixedDecay(above: real, d: real, e: real)
    requires 0.0 <= e <= d <= 1.0
    ensures above >= 0.0 ==> 0.5 <= Mixed(above, e) <= Mixed(above, d) && Mixed(above, e) <= 0.5 + above
    ensures above < 0.0 ==> Mixed(above, e) == 0.5
  {
    if above >= 0.0 {
      Product(above, e);
      Product(above, d - e);
      Product(above, 1.0 - e);
      assert above * (d - e) == above * d - above * e;
      assert above * (1.0 - e) == above - above * e;
    } else {
      Product(-above, e);
      assert (-above) * e == -(above * e);
    }
  }

  lemma {:induction false} LaterRatio(x: real, y: real, z: real)
    requires 0.0 < x <= y && z > 0.0
    ensures 0.0 < x / z <= y / z
  {
  }

  /** The fidelity of a pair that starts above a half never rises; that of any other pair ends at a half. */
  lemma {:induction false} FidelityOverTime(decay: Decay, pair: EntanglementPair, now: real, later: real)
    requires Decays(decay) && now <= later && !pair.consumed
    ensures pair.initialFidelity >= 0.5 ==>
      0.5 <= CurrentFidelity(decay, pair, later) <= CurrentFidelity(decay, pair, now)
    ensures pair.initialFidelity < 0.5 && pair.createdAt < later ==> CurrentFidelity(decay, pair, later) == 0.5
    ensures pair.createdAt < later ==> 0.5 <= CurrentFidelity(decay, pair, later) <= 1.0
  {
    var x := (now - pair.createdAt) * 1000.0;
    var y := (later - pair.createdAt) * 1000.0;
    if y > 0.0 && pair.coherenceMs > 0.0 {
      LaterRatio(y, y, pair.coherenceMs);
      var e := decay(y / pair.coherenceMs);
      if x > 0.0 {
        LaterRatio(x, y, pair.coherenceMs);
        MixedDecay(pair.initialFidelity - 0.5, decay(x / pair.coherenceMs), e);
      } else {
        MixedDecay(pair.initialFidelity - 0.5, 1.0, e);
      }
    }
  }

  /** For pairs that start between a half and one the bounds never bite: the fidelity follows the decay formula. */
  lemma {:induction false} FidelityFollowsFormula(decay: Decay, pair: EntanglementPair, now: real)
    requires Decays(decay) && !pair.consumed && 0.5 <= pair.initialFidelity <= 1.0
    requires pair.createdAt < now && pair.coherenceMs > 0.0
    ensures CurrentFidelity(decay, pair, now)
      == 0.5 + (pair.initialFidelity - 0.5) * decay((now - pair.createdAt) * 1000.0 / pair.coherenceMs)
  {
    var elapsed := (now - pair.createdAt) * 1000.0;
    LaterRatio(elapsed, elapsed, pair.coherenceMs);
    var above, d := pair.initialFidelity - 0.5, decay(elapsed / pair.coherenceMs);
    Product(above, d);
    Product(above, 1.0 - d);
    assert above * (1.0 - d) == above - above * d;
  }

  /** A pair that has expired stays so for good unless it starts below a half and the threshold does not
      exceed a half. */
  lemma {:induction false} ExpiryIsFinalExactly(decay: Decay, pair: EntanglementPair, minFidelity: real, now: real)
    requires Decays(decay) && !pair.consumed && IsExpired(decay, pair, minFidelity, now)
    ensures (forall later :: now <= later ==> IsExpired(decay, pair, minFidelity, later))
      <==> minFidelity > 0.5
  {
    forall later | now <= later
      ensures minFidelity > 0.5 ==> IsExpired(decay, pair, minFidelity, later)
    {
      FidelityOverTime(decay, pair, now, later);
      FidelityOverTime(decay, pair, now, now);
    }
    if minFidelity <= 0.5 {
      FidelityOverTime(decay, pair, now, now);
      var later := if now < pair.createdAt then pair.createdAt + 1.0 else now + 1.0;
      FidelityOverTime(decay, pair, now, later);
      assert !IsExpired(decay, pair, minFidelity, later);
    }
  }

  /** The fidelity of an unused pair up to its creation, and of one without coherence time after it. */
  lemma {:induction false} FidelityAtTheEdges(decay: Decay, pair: EntanglementPair, now: real)
    ensures !pair.consumed && now <= pair.createdAt ==> CurrentFidelity(decay, pair, now) == pair.initialFidelity
    ensures !pair.consumed && pair.createdAt < now && pair.coherenceMs <= 0.0 ==>
      CurrentFidelity(decay, pair, now) == 0.5
    ensures pair.consumed ==> CurrentFidelity(decay, pair, now) == 0.0
  {
  }

  // ---------------------------------------------------------------------------------------
  // Pools, in insertion order
  // ---------------------------------------------------------------------------------------

  type Pool = seq<EntanglementPair>

  predicate Joins(pair: EntanglementPair, a: string, b: string) {
    (pair.nodeA == a && pair.nodeB == b) || (pair.nodeA == b && pair.nodeB == a)
  }

  lemma {:induction false} JoinsBothEnds(pair: EntanglementPair, a: string, b: string)
    ensures Joins(pair, a, b) <==> multiset{pair.nodeA, pair.nodeB} == multiset{a, b}
  {
    var ends := multiset{pair.nodeA, pair.nodeB};
    assert ends[a] == (if pair.nodeA == a then 1 else 0) + (if pair.nodeB == a then 1 else 0);
    assert ends[b] == (if pair.nodeA == b then 1 else 0) + (if pair.nodeB == b then 1 else 0);
    assert multiset{a, b}[a] == 1 + (if a == b then 1 else 0);
    assert multiset{a, b}[b] == 1 + (if a == b then 1 else 0);
  }

  datatype Wanted = Wanted(a: string, b: string, minFidelity: real)

  predicate Usable(decay: Decay, pair: EntanglementPair, wanted: Wanted, now: real) {
    !pair.consumed && !IsExpired(decay, pair, wanted.minFidelity, now) && Joins(pair, wanted.a, wanted.b)
  }

  /** The pairs that purging leaves. */
  ghost function Kept(decay: Decay, pool: Pool, minFidelity: real, now: real): Pool {
    if pool == [] then []
    else
      var front, last := Kept(decay, pool[..|pool| - 1], minFidelity, now), pool[|pool| - 1];
      if IsExpired(decay, last, minFidelity, now) then front else front + [last]
  }

  /** The first usable pair of greatest fidelity. */
  ghost function Best(decay: Decay, pool: Pool, wanted: Wanted, now: real): (best: Option<EntanglementPair>)
    ensures best == None ==> forall i :: 0 <= i < |pool| ==> !Usable(decay, pool[i], wanted, now)
    ensures best.Some? ==> exists k :: IsFirstBest(decay, pool, wanted, now, k, best.value)
  {
    if pool == [] then None
    else
      var best, last := Best(decay, pool[..|pool| - 1], wanted, now), pool[|pool| - 1];
      if Usable(decay, last, wanted, now)
         && (best == None || CurrentFidelity(decay, last, now) > CurrentFidelity(decay, best.value, now)) then
        assert IsFirstBest(decay, pool, wanted, now, |pool| - 1, last);
        Some(last)
      else
        BestStays(decay, pool, wanted, now, best);
        best
  }

  lemma {:induction false} BestStays(
      decay: Decay, pool: Pool, wanted: Wanted, now: real, best: Option<EntanglementPair>)
    requires pool != []
    ensures
      var front, last := pool[..|pool| - 1], pool[|pool| - 1];
      best.Some? && (exists k :: IsFirstBest(decay, front, wanted, now, k, best.value))
      && (Usable(decay, last, wanted, now)
        ==> CurrentFidelity(decay, last, now) <= CurrentFidelity(decay, best.value, now))
      ==> exists k :: IsFirstBest(decay, pool, wanted, now, k, best.value)
  {
    var front, last := pool[..|pool| - 1], pool[|pool| - 1];
    if best.Some? && (Usable(decay, last, wanted, now)
      ==> CurrentFidelity(decay, last, now) <= CurrentFidelity(decay, best.value, now))
    {
      if k :| IsFirstBest(decay, front, wanted, now, k, best.value) {
        assert IsFirstBest(decay, pool, wanted, now, k, best.value);
      }
    }
  }

  /** What a caller asks for: an unused pair between exactly these two nodes whose fidelity suffices. */
  ghost predicate Fits(decay: Decay, pair: EntanglementPair, a: string, b: string, minFidelity: real, now: real) {
    && !pair.consumed && multiset{pair.nodeA, pair.nodeB} == multiset{a, b}
    && CurrentFidelity(decay, pair, now) >= minFidelity
  }

  ghost predicate NoneFits(decay: Decay, pool: Pool, a: string, b: string, minFidelity: real, now: real) {
    forall i :: 0 <= i < |pool| ==> !Fits(decay, pool[i], a, b, minFidelity, now)
  }

  /** The pair at k is the first fitting one of greatest fidelity. */
  ghost predicate FirstFitting(
      decay: Decay, pool: Pool, a: string, b: string, minFidelity: real, now: real, k: int)
  {
    && 0 <= k < |pool| && Fits(decay, pool[k], a, b, minFidelity, now)
    && forall i :: 0 <= i < |pool| && Fits(decay, pool[i], a, b, minFidelity, now) ==>
      && CurrentFidelity(decay, pool[i], now) <= CurrentFidelity(decay, pool[k], now)
      && (i < k ==> CurrentFidelity(decay, pool[i], now) < CurrentFidelity(decay, pool[k], now))
  }

  lemma {:induction false} UsableFits(decay: Decay, pair: EntanglementPair, wanted: Wanted, now: real)
    ensures Usable(decay, pair, wanted, now) <==> Fits(decay, pair, wanted.a, wanted.b, wanted.minFidelity, now)
  {
    JoinsBothEnds(pair, wanted.a, wanted.b);
  }

  /** A reservation finds a fitting pair if there is one: of those of greatest fidelity, the first. */
  lemma {:induction false} BestFits(decay: Decay, pool: Pool, a: string, b: string, minFidelity: real, now: real)
    ensures
      var best := Best(decay, pool, Wanted(a, b, minFidelity), now);
      && (best == None <==> NoneFits(decay, pool, a, b, minFidelity, now))
      && (best.Some? ==> exists k :: FirstFitting(decay, pool, a, b, minFidelity, now, k) && pool[k] == best.value)
  {
    var wanted := Wanted(a, b, minFidelity);
    var best := Best(decay, pool, wanted, now);
    forall i | 0 <= i < |pool|
      ensures Usable(decay, pool[i], wanted, now) <==> Fits(decay, pool[i], a, b, minFidelity, now)
    {
      UsableFits(decay, pool[i], wanted, now);
    }
    if best.Some? {
      var k :| IsFirstBest(decay, pool, wanted, now, k, best.value);
      assert FirstFitting(decay, pool, a, b, minFidelity, now, k);
    }
  }

  lemma {:induction false} ChosenFits(
      decay: Decay, pool: Pool, a: string, b: string, minFidelity: real, now: real, chosen: int)
    requires UniqueIds(pool) && 0 <= chosen < |pool|
    requires Best(decay, pool, Wanted(a, b, minFidelity), now) == Some(pool[chosen])
    ensures FirstFitting(decay, pool, a, b, minFidelity, now, chosen)
  {
    BestFits(decay, pool, a, b, minFidelity, now);
    var k :| FirstFitting(decay, pool, a, b, minFidelity, now, k) && pool[k] == pool[chosen];
    assert k == chosen;
  }

  ghost predicate IsFirstBest(
      decay: Decay, pool: Pool, wanted: Wanted, now: real, k: int, pair: EntanglementPair)
  {
    && 0 <= k < |pool| && pool[k] == pair && Usable(decay, pair, wanted, now)
    && forall i :: 0 <= i < |pool| && Usable(decay, pool[i], wanted, now) ==>
      && CurrentFidelity(decay, pool[i], now) <= CurrentFidelity(decay, pair, now)
      && (i < k ==> CurrentFidelity(decay, pool[i], now) < CurrentFidelity(decay, pair, now))
  }

  /** The order in which the two nodes are named does not matter. */
  lemma {:induction false} EitherOrder(decay: Decay, pool: Pool, a: string, b: string, minFidelity: real, now: real)
    ensures Best(decay, pool, Wanted(a, b, minFidelity), now) == Best(decay, pool, Wanted(b, a, minFidelity), now)
  {
    if pool != [] {
      EitherOrder(decay, pool[..|pool| - 1], a, b, minFidelity, now);
    }
  }

  /** The dictionary keeps the place of an id that it already holds. */
  function Inserted(pool: Pool, pair: EntanglementPair): Pool {
    if pool == [] then [pair]
    else if pool[0].id == pair.id then [pair] + pool[1..]
    else [pool[0]] + Inserted(pool[1..], pair)
  }

  lemma {:induction false} InsertedNew(pool: Pool, pair: EntanglementPair)
    requires forall other :: other in pool ==> other.id != pair.id
    ensures Inserted(pool, pair) == pool + [pair]
  {
    if pool != [] {
      InsertedNew(pool[1..], pair);
      assert pool == [pool[0]] + pool[1..];
    }
  }

  /** A pair of an id that is there takes the place of the one that had it. */
  lemma {:induction false} InsertedInPlace(pool: Pool, pair: EntanglementPair, k: nat)
    requires k < |pool| && pool[k].id == pair.id && forall i :: 0 <= i < k ==> pool[i].id != pair.id
    ensures Inserted(pool, pair) == pool[k := pair]
  {
    if k > 0 {
      InsertedInPlace(pool[1..], pair, k - 1);
      assert pool[k := pair] == [pool[0]] + pool[1..][k - 1 := pair];
    } else {
      assert pool[0 := pair] == [pair] + pool[1..];
    }
  }

  lemma {:induction false} InsertedAt(pool: Pool, pair: EntanglementPair)
    requires UniqueIds(pool)
    ensures UniqueIds(Inserted(pool, pair))
    ensures forall other :: other in Inserted(pool, pair) <==>
      other == pair || (other in pool && other.id != pair.id)
  {
    if pool != [] {
      var head, tail := pool[0], pool[1..];
      assert pool == [head] + tail;
      assert UniqueIds(tail);
      forall other | other in tail
        ensures other.id != head.id
      {
        var j :| 0 <= j < |tail| && tail[j] == other;
        assert pool[0].id != pool[j + 1].id;
      }
      if head.id != pair.id {
        InsertedAt(tail, pair);
        var rest := Inserted(tail, pair);
        forall j | 0 <= j < |rest|
          ensures rest[j].id != head.id
        {
          assert rest[j] in rest;
        }
      }
    }
  }

  function Used(pair: EntanglementPair, at: real): EntanglementPair {
    pair.(consumed := true, consumedAt := Some(at))
  }

  /** Every pair of that id marked as used. */
  ghost function Consumed(pool: Pool, id: string, at: real): (r: Pool)
    ensures |r| == |pool|
  {
    seq(|pool|, i requires 0 <= i < |pool| => if pool[i].id == id then Used(pool[i], at) else pool[i])
  }

  ghost predicate UniqueIds(pool: Pool) {
    forall i, j :: 0 <= i < j < |pool| ==> pool[i].id != pool[j].id
  }

  lemma {:induction false} ConsumedAt(pool: Pool, k: nat, at: real)
    requires UniqueIds(pool) && k < |pool|
    ensures pool[k := Used(pool[k], at)] == Consumed(pool, pool[k].id, at)
  {
  }

  // ---------------------------------------------------------------------------------------
  // What purging and consuming leave
  // ---------------------------------------------------------------------------------------

  ghost function Without(pool: Pool, id: string): Pool {
    if pool == [] then []
    else
      var front, last := Without(pool[..|pool| - 1], id), pool[|pool| - 1];
      if last.id == id then front else front + [last]
  }

  lemma {:induction false} WithoutAbsent(pool: Pool, id: string)
    requires forall pair :: pair in pool ==> pair.id != id
    ensures Without(pool, id) == pool
  {
    if pool != [] {
      WithoutAbsent(pool[..|pool| - 1], id);
    }
  }

  lemma {:induction false} KeptOneMore(decay: Decay, pool: Pool, pair: EntanglementPair, minFidelity: real, now: real)
    ensures Kept(decay, pool + [pair], minFidelity, now)
      == Kept(decay, pool, minFidelity, now) + if IsExpired(decay, pair, minFidelity, now) then [] else [pair]
  {
    assert (pool + [pair])[..|pool|] == pool;
  }

  lemma {:induction false} KeptMembers(decay: Decay, pool: Pool, minFidelity: real, now: real)
    ensures forall pair :: pair in Kept(decay, pool, minFidelity, now) <==>
      pair in pool && !IsExpired(decay, pair, minFidelity, now)
  {
    if pool != [] {
      KeptMembers(decay, pool[..|pool| - 1], minFidelity, now);
    }
  }

  lemma {:induction false} KeptUnique(decay: Decay, pool: Pool, minFidelity: real, now: real)
    requires UniqueIds(pool)
    ensures UniqueIds(Kept(decay, pool, minFidelity, now))
  {
    if pool != [] {
      var front, last := pool[..|pool| - 1], pool[|pool| - 1];
      KeptUnique(decay, front, minFidelity, now);
      KeptMembers(decay, front, minFidelity, now);
      var kept := Kept(decay, front, minFidelity, now);
      forall i | 0 <= i < |kept|
        ensures kept[i].id != last.id
      {
        assert kept[i] in front;
      }
    }
  }

  /** With this, expiry at the threshold is final. */
  ghost predicate Lasting(pair: EntanglementPair, minFidelity: real) {
    minFidelity > 0.5 || pair.initialFidelity >= minFidelity
  }

  lemma {:induction false} StaysExpired(
      decay: Decay, pair: EntanglementPair, lower: real, now: real, minFidelity: real, later: real)
    requires Decays(decay) && now <= later && lower <= minFidelity && Lasting(pair, minFidelity)
    requires IsExpired(decay, pair, lower, now)
    ensures IsExpired(decay, pair, minFidelity, later)
  {
    if !pair.consumed {
      FidelityOverTime(decay, pair, now, later);
    }
  }

  /** An earlier purge at a lower threshold takes nothing that a later one would leave. */
  lemma {:induction false} KeptOfKept(
      decay: Decay, pool: Pool, lower: real, now: real, minFidelity: real, later: real)
    requires Decays(decay) && now <= later && lower <= minFidelity
    requires forall pair :: pair in pool ==> Lasting(pair, minFidelity)
    ensures Kept(decay, Kept(decay, pool, lower, now), minFidelity, later) == Kept(decay, pool, minFidelity, later)
  {
    if pool != [] {
      var front, last := pool[..|pool| - 1], pool[|pool| - 1];
      KeptOfKept(decay, front, lower, now, minFidelity, later);
      if IsExpired(decay, last, lower, now) {
        StaysExpired(decay, last, lower, now, minFidelity, later);
      } else {
        KeptOneMore(decay, Kept(decay, front, lower, now), last, minFidelity, later);
      }
    }
  }

  lemma {:induction false} KeptCommutes(decay: Decay, pool: Pool, x: real, y: real, now: real)
    ensures Kept(decay, Kept(decay, pool, x, now), y, now) == Kept(decay, Kept(decay, pool, y, now), x, now)
  {
    if pool != [] {
      var front, last := pool[..|pool| - 1], pool[|pool| - 1];
      KeptCommutes(decay, front, x, y, now);
      KeptOneMore(decay, Kept(decay, front, x, now), last, y, now);
      KeptOneMore(decay, Kept(decay, front, y, now), last, x, now);
    }
  }

  lemma {:induction false} KeptOfConsumed(
      decay: Decay, pool: Pool, id: string, at: real, minFidelity: real, now: real)
    ensures Kept(decay, Consumed(pool, id, at), minFidelity, now) == Without(Kept(decay, pool, minFidelity, now), id)
  {
    if pool != [] {
      var front, last := pool[..|pool| - 1], pool[|pool| - 1];
      KeptOfConsumed(decay, front, id, at, minFidelity, now);
      assert Consumed(pool, id, at)[..|front|] == Consumed(front, id, at);
      var kept := Kept(decay, front, minFidelity, now);
      assert (kept + [last])[..|kept|] == kept;
    }
  }

  /** A reservation at or above the threshold does not notice the purge. */
  lemma {:induction false} BestOfKept(decay: Decay, pool: Pool, minFidelity: real, wanted: Wanted, now: real)
    requires minFidelity <= wanted.minFidelity
    ensures Best(decay, Kept(decay, pool, minFidelity, now), wanted, now) == Best(decay, pool, wanted, now)
  {
    if pool != [] {
      var front, last := pool[..|pool| - 1], pool[|pool| - 1];
      BestOfKept(decay, front, minFidelity, wanted, now);
      var kept := Kept(decay, front, minFidelity, now);
      assert (kept + [last])[..|kept|] == kept;
    }
  }

  /** A reservation below the threshold takes the best pair above it, if there is one. */
  lemma {:induction false} BestBelow(decay: Decay, pool: Pool, minFidelity: real, wanted: Wanted, now: real)
    requires wanted.minFidelity <= minFidelity
    ensures
      var above := Best(decay, pool, wanted.(minFidelity := minFidelity), now);
      var best := Best(decay, pool, wanted, now);
      && (above.Some? ==> best == above)
      && (above.None? && best.Some? ==> IsExpired(decay, best.value, minFidelity, now))
  {
    if pool != [] {
      BestBelow(decay, pool[..|pool| - 1], minFidelity, wanted, now);
    }
  }
}
