/** Runs of the entanglement pool: purging cannot be noticed, no pair is handed out twice, and every reserved
    pair was generated. */
module EntanglementRuns {
  import opened Wrappers
  import opened Entanglement

  datatype Op =
    | Generate(pair: EntanglementPair)
    | Reserve(wanted: Wanted, now: real, takenAt: real)
    | Purge(minFidelity: real, now: real)
  {
    function Time(): real {
      if Generate? then pair.createdAt else now
    }
  }

  ghost function Outcome(decay: Decay, pool: Pool, op: Op): Option<EntanglementPair>
    requires op.Reserve?
  {
    Best(decay, pool, op.wanted, op.now)
  }

  ghost function Step(decay: Decay, pool: Pool, op: Op): Pool {
    match op
    case Generate(pair) => Inserted(pool, pair)
    case Reserve(wanted, now, takenAt) =>
      var best := Best(decay, pool, wanted, now);
      if best == None then pool else Consumed(pool, best.value.id, takenAt)
    case Purge(minFidelity, now) => Kept(decay, pool, minFidelity, now)
  }

  /** The pool after the operations, without those at the skipped positions. */
  ghost function PoolAfter(decay: Decay, ops: seq<Op>, skipped: set<int>): Pool {
    if ops == [] then []
    else
      var before := PoolAfter(decay, ops[..|ops| - 1], skipped);
      if |ops| - 1 in skipped then before else Step(decay, before, ops[|ops| - 1])
  }

  /** New pairs are not yet used, and their random ids differ. */
  ghost predicate FreshIds(ops: seq<Op>) {
    && (forall i :: 0 <= i < |ops| && ops[i].Generate? ==> !ops[i].pair.consumed)
    && (forall i, j :: 0 <= i < j < |ops| && ops[i].Generate? && ops[j].Generate? ==>
      ops[i].pair.id != ops[j].pair.id)
  }

  ghost predicate ClockNondecreasing(ops: seq<Op>) {
    forall i, j :: 0 <= i < j < |ops| ==> ops[i].Time() <= ops[j].Time()
  }

  ghost predicate GeneratedIn(ops: seq<Op>, id: string) {
    exists i :: 0 <= i < |ops| && ops[i].Generate? && ops[i].pair.id == id
  }

  lemma {:induction false} FreshFront(ops: seq<Op>)
    requires FreshIds(ops) && ops != []
    ensures FreshIds(ops[..|ops| - 1])
    ensures ops[|ops| - 1].Generate? ==> !GeneratedIn(ops[..|ops| - 1], ops[|ops| - 1].pair.id)
  {
  }

  lemma {:induction false} GeneratedLonger(ops: seq<Op>, id: string)
    requires ops != []
    ensures GeneratedIn(ops, id) <==>
      GeneratedIn(ops[..|ops| - 1], id) || (ops[|ops| - 1].Generate? && ops[|ops| - 1].pair.id == id)
  {
    var front := ops[..|ops| - 1];
    if i :| 0 <= i < |front| && front[i].Generate? && front[i].pair.id == id {
      assert ops[i] == front[i];
    }
    if i :| 0 <= i < |ops| && ops[i].Generate? && ops[i].pair.id == id {
      assert i < |front| ==> front[i] == ops[i];
    }
  }

  ghost predicate AllLasting(pool: Pool, minFidelity: real) {
    forall pair :: pair in pool ==> Lasting(pair, minFidelity)
  }

  /** The threshold exceeds a half or every pair starts at a half or above. */
  ghost predicate RunLasting(ops: seq<Op>, minFidelity: real) {
    forall i :: 0 <= i < |ops| && ops[i].Generate? ==> Lasting(ops[i].pair, minFidelity)
  }

  ghost predicate FromRun(pool: Pool, ops: seq<Op>) {
    && UniqueIds(pool)
    && forall pair :: pair in pool ==> GeneratedIn(ops, pair.id)
  }

  lemma {:induction false} ConsumedFromRun(pool: Pool, id: string, at: real, ops: seq<Op>, minFidelity: real)
    requires FromRun(pool, ops) && AllLasting(pool, minFidelity)
    ensures FromRun(Consumed(pool, id, at), ops) && AllLasting(Consumed(pool, id, at), minFidelity)
  {
    var after := Consumed(pool, id, at);
    forall i | 0 <= i < |after|
      ensures after[i].id == pool[i].id && GeneratedIn(ops, after[i].id) && Lasting(after[i], minFidelity)
    {
      assert pool[i] in pool;
    }
  }

  lemma {:induction false} AddedFromRun(pool: Pool, pair: EntanglementPair, ops: seq<Op>, minFidelity: real)
    requires FromRun(pool, ops) && AllLasting(pool, minFidelity)
    requires GeneratedIn(ops, pair.id) && Lasting(pair, minFidelity)
    requires forall other :: other in pool ==> other.id != pair.id
    ensures FromRun(pool + [pair], ops) && AllLasting(pool + [pair], minFidelity)
  {
    forall i | 0 <= i < |pool|
      ensures pool[i].id != pair.id
    {
      assert pool[i] in pool;
    }
  }

  lemma {:induction false} KeptFromRun(
      decay: Decay, pool: Pool, lower: real, now: real, ops: seq<Op>, minFidelity: real)
    requires FromRun(pool, ops) && AllLasting(pool, minFidelity)
    ensures FromRun(Kept(decay, pool, lower, now), ops) && AllLasting(Kept(decay, pool, lower, now), minFidelity)
  {
    KeptMembers(decay, pool, lower, now);
    KeptUnique(decay, pool, lower, now);
  }

  lemma {:induction false} LongerRun(pool: Pool, ops: seq<Op>)
    requires ops != [] && FromRun(pool, ops[..|ops| - 1])
    ensures FromRun(pool, ops)
  {
    forall pair | pair in pool
      ensures GeneratedIn(ops, pair.id)
    {
      GeneratedLonger(ops, pair.id);
    }
  }

  lemma {:induction false} StepFromRun(decay: Decay, pool: Pool, ops: seq<Op>, minFidelity: real)
    requires ops != [] && FreshIds(ops)
    requires FromRun(pool, ops[..|ops| - 1]) && AllLasting(pool, minFidelity) && RunLasting(ops, minFidelity)
    ensures FromRun(Step(decay, pool, ops[|ops| - 1]), ops)
    ensures AllLasting(Step(decay, pool, ops[|ops| - 1]), minFidelity)
  {
    LongerRun(pool, ops);
    match ops[|ops| - 1]
    case Generate(pair) =>
      FreshFront(ops);
      GeneratedLonger(ops, pair.id);
      InsertedNew(pool, pair);
      AddedFromRun(pool, pair, ops, minFidelity);
    case Reserve(wanted, now, takenAt) =>
      var best := Best(decay, pool, wanted, now);
      if best.Some? {
        ConsumedFromRun(pool, best.value.id, takenAt, ops, minFidelity);
      }
    case Purge(lower, now) => KeptFromRun(decay, pool, lower, now, ops, minFidelity);
  }

  lemma {:induction false} RunsFromRun(decay: Decay, ops: seq<Op>, skipped: set<int>, minFidelity: real)
    requires FreshIds(ops) && RunLasting(ops, minFidelity)
    ensures FromRun(PoolAfter(decay, ops, skipped), ops) && AllLasting(PoolAfter(decay, ops, skipped), minFidelity)
  {
    if ops != [] {
      var front := ops[..|ops| - 1];
      FreshFront(ops);
      RunsFromRun(decay, front, skipped, minFidelity);
      var before := PoolAfter(decay, front, skipped);
      if |ops| - 1 in skipped {
        LongerRun(before, ops);
      } else {
        StepFromRun(decay, before, ops, minFidelity);
      }
    }
  }

  // ---------------------------------------------------------------------------------------
  // Purging cannot be noticed
  // ---------------------------------------------------------------------------------------

  ghost predicate Alike(decay: Decay, a: Pool, b: Pool, minFidelity: real, now: real) {
    Kept(decay, a, minFidelity, now) == Kept(decay, b, minFidelity, now)
  }

  lemma {:induction false} AlikeLater(decay: Decay, a: Pool, b: Pool, minFidelity: real, now: real, later: real)
    requires Decays(decay) && now <= later && AllLasting(a, minFidelity) && AllLasting(b, minFidelity)
    requires Alike(decay, a, b, minFidelity, now)
    ensures Alike(decay, a, b, minFidelity, later)
  {
    KeptOfKept(decay, a, minFidelity, now, minFidelity, later);
    KeptOfKept(decay, b, minFidelity, now, minFidelity, later);
  }

  lemma {:induction false} SameOutcome(decay: Decay, a: Pool, b: Pool, minFidelity: real, wanted: Wanted, now: real)
    requires Alike(decay, a, b, minFidelity, now) && minFidelity <= wanted.minFidelity
    ensures Best(decay, a, wanted, now) == Best(decay, b, wanted, now)
  {
    BestOfKept(decay, a, minFidelity, wanted, now);
    BestOfKept(decay, b, minFidelity, wanted, now);
  }

  /** Taking a pair that the purge would have removed leaves the rest alone. */
  lemma {:induction false} ConsumingExpired(
      decay: Decay, pool: Pool, pair: EntanglementPair, at: real, minFidelity: real, now: real)
    requires UniqueIds(pool) && pair in pool && IsExpired(decay, pair, minFidelity, now)
    ensures Kept(decay, Consumed(pool, pair.id, at), minFidelity, now) == Kept(decay, pool, minFidelity, now)
  {
    KeptOfConsumed(decay, pool, pair.id, at, minFidelity, now);
    KeptMembers(decay, pool, minFidelity, now);
    var kept := Kept(decay, pool, minFidelity, now);
    forall other | other in kept
      ensures other.id != pair.id
    {
      assert other in pool && other != pair;
      var i :| 0 <= i < |pool| && pool[i] == other;
      var j :| 0 <= j < |pool| && pool[j] == pair;
    }
    WithoutAbsent(kept, pair.id);
  }

  lemma {:induction false} ReserveBelow(decay: Decay, pool: Pool, op: Op, minFidelity: real)
    requires op.Reserve? && op.wanted.minFidelity <= minFidelity && UniqueIds(pool)
    requires Best(decay, pool, op.wanted.(minFidelity := minFidelity), op.now) == None
    ensures Kept(decay, Step(decay, pool, op), minFidelity, op.now) == Kept(decay, pool, minFidelity, op.now)
  {
    BestBelow(decay, pool, minFidelity, op.wanted, op.now);
    var best := Best(decay, pool, op.wanted, op.now);
    if best.Some? {
      assert best.value in pool by {
        var k :| IsFirstBest(decay, pool, op.wanted, op.now, k, best.value);
      }
      ConsumingExpired(decay, pool, best.value, op.takenAt, minFidelity, op.now);
    }
  }

  lemma {:induction false} StepKeepsAlike(decay: Decay, a: Pool, b: Pool, op: Op, minFidelity: real)
    requires UniqueIds(a) && UniqueIds(b) && Alike(decay, a, b, minFidelity, op.Time())
    requires op.Generate? ==> forall other :: other in a + b ==> other.id != op.pair.id
    ensures Alike(decay, Step(decay, a, op), Step(decay, b, op), minFidelity, op.Time())
  {
    match op
    case Generate(pair) =>
      InsertedNew(a, pair);
      InsertedNew(b, pair);
      KeptOneMore(decay, a, pair, minFidelity, pair.createdAt);
      KeptOneMore(decay, b, pair, minFidelity, pair.createdAt);
    case Purge(x, now) =>
      KeptCommutes(decay, a, x, minFidelity, now);
      KeptCommutes(decay, b, x, minFidelity, now);
    case Reserve(wanted, now, takenAt) =>
      ReserveKeepsAlike(decay, a, b, op, minFidelity);
  }

  lemma {:induction false} ReserveKeepsAlike(decay: Decay, a: Pool, b: Pool, op: Op, minFidelity: real)
    requires op.Reserve? && UniqueIds(a) && UniqueIds(b) && Alike(decay, a, b, minFidelity, op.now)
    ensures Alike(decay, Step(decay, a, op), Step(decay, b, op), minFidelity, op.now)
  {
    var wanted, now := op.wanted, op.now;
    var high := wanted.(minFidelity := minFidelity);
    SameOutcome(decay, a, b, minFidelity, high, now);
    if wanted.minFidelity <= minFidelity && Best(decay, a, high, now) == None {
      ReserveBelow(decay, a, op, minFidelity);
      ReserveBelow(decay, b, op, minFidelity);
    } else {
      if wanted.minFidelity <= minFidelity {
        BestBelow(decay, a, minFidelity, wanted, now);
        BestBelow(decay, b, minFidelity, wanted, now);
      } else {
        SameOutcome(decay, a, b, minFidelity, wanted, now);
      }
      var best := Best(decay, a, wanted, now);
      if best.Some? {
        KeptOfConsumed(decay, a, best.value.id, op.takenAt, minFidelity, now);
        KeptOfConsumed(decay, b, best.value.id, op.takenAt, minFidelity, now);
      }
    }
  }

  ghost predicate SkipsPurges(ops: seq<Op>, skipped: set<int>, minFidelity: real) {
    forall i :: i in skipped && 0 <= i < |ops| ==> ops[i].Purge? && ops[i].minFidelity <= minFidelity
  }

  lemma {:induction false} RunsAlike(decay: Decay, ops: seq<Op>, skipped: set<int>, minFidelity: real, now: real)
    requires Decays(decay) && FreshIds(ops) && ClockNondecreasing(ops) && RunLasting(ops, minFidelity)
    requires SkipsPurges(ops, skipped, minFidelity)
    requires forall i :: 0 <= i < |ops| ==> ops[i].Time() <= now
    ensures Alike(decay, PoolAfter(decay, ops, {}), PoolAfter(decay, ops, skipped), minFidelity, now)
  {
    if ops != [] {
      var n := |ops| - 1;
      var front, op := ops[..n], ops[n];
      FreshFront(ops);
      RunsAlike(decay, front, skipped, minFidelity, op.Time());
      RunsFromRun(decay, front, {}, minFidelity);
      RunsFromRun(decay, front, skipped, minFidelity);
      var a, b := PoolAfter(decay, front, {}), PoolAfter(decay, front, skipped);
      if n in skipped {
        KeptOfKept(decay, a, op.minFidelity, op.now, minFidelity, op.now);
      } else {
        StepKeepsAlike(decay, a, b, op, minFidelity);
      }
      RunsFromRun(decay, ops, {}, minFidelity);
      RunsFromRun(decay, ops, skipped, minFidelity);
      AlikeLater(
        decay, PoolAfter(decay, ops, {}), PoolAfter(decay, ops, skipped), minFidelity, op.Time(), now);
    }
  }

  /** Reservation k returns the same whether or not the skipped purges are made. */
  ghost predicate SameReservation(decay: Decay, ops: seq<Op>, skipped: set<int>, k: nat)
    requires k < |ops| && ops[k].Reserve?
  {
    Outcome(decay, PoolAfter(decay, ops[..k], {}), ops[k])
    == Outcome(decay, PoolAfter(decay, ops[..k], skipped), ops[k])
  }

  /** Leaving out any purges at thresholds up to m changes no reservation at a threshold of m or more, if m
      exceeds a half or all pairs start at m or above. */
  lemma {:induction false} PurgingIsUnobservable(decay: Decay, ops: seq<Op>, skipped: set<int>, m: real, k: nat)
    requires Decays(decay) && FreshIds(ops) && ClockNondecreasing(ops)
    requires RunLasting(ops, m) && SkipsPurges(ops, skipped, m)
    requires k < |ops| && ops[k].Reserve? && m <= ops[k].wanted.minFidelity
    ensures SameReservation(decay, ops, skipped, k)
  {
    var before := ops[..k];
    assert forall i :: 0 <= i < k ==> before[i] == ops[i];
    RunsAlike(decay, before, skipped, m, ops[k].now);
    SameOutcome(
      decay, PoolAfter(decay, before, {}), PoolAfter(decay, before, skipped), m, ops[k].wanted, ops[k].now);
  }

  /** Generate the pair, purge at once, reserve a second later. */
  function PurgeAtOnce(pair: EntanglementPair, m: real): seq<Op> {
    var later := pair.createdAt + 1.0;
    [Generate(pair), Purge(m, pair.createdAt), Reserve(Wanted(pair.nodeA, pair.nodeB, m), later, later)]
  }

  /** Otherwise a purge shows: any pair that starts below m, while m is at most a half, recovers to a half once
      time passes. */
  lemma {:induction false} PurgeOfWeakPairShows(decay: Decay, pair: EntanglementPair, m: real)
    requires Decays(decay) && !pair.consumed && pair.initialFidelity < m <= 0.5
    ensures
      var ops := PurgeAtOnce(pair, m);
      && Outcome(decay, PoolAfter(decay, ops[..2], {}), ops[2]) == None
      && Outcome(decay, PoolAfter(decay, ops[..2], {1}), ops[2]) == Some(pair)
  {
    var ops := PurgeAtOnce(pair, m);
    assert ops[..2] == [ops[0], ops[1]];
    PoolOfTwo(decay, ops[0], ops[1]);
    OnePair(decay, pair, m, pair.createdAt, ops[2].wanted, ops[2].now);
    FidelityOverTime(decay, pair, pair.createdAt, ops[2].now);
    assert Inserted([], pair) == [pair];
  }

  ghost predicate AllStartAt(ops: seq<Op>, fidelity: real) {
    forall i :: 0 <= i < |ops| && ops[i].Generate? ==> ops[i].pair.initialFidelity == fidelity
  }

  /** No run over pairs of this initial fidelity shows which purges at thresholds up to m were made to a
      reservation at m or above. */
  ghost predicate Unnoticed(decay: Decay, fidelity: real, m: real) {
    forall ops: seq<Op>, skipped: set<int>, k: nat ::
      k < |ops| && ops[k].Reserve? && Skippable(ops, skipped, fidelity, m) && m <= ops[k].wanted.minFidelity ==>
      SameReservation(decay, ops, skipped, k)
  }

  ghost predicate Skippable(ops: seq<Op>, skipped: set<int>, fidelity: real, m: real) {
    FreshIds(ops) && ClockNondecreasing(ops) && AllStartAt(ops, fidelity) && SkipsPurges(ops, skipped, m)
  }

  lemma {:induction false} PurgingIsUnnoticedExactly(decay: Decay, fidelity: real, m: real)
    requires Decays(decay)
    ensures Unnoticed(decay, fidelity, m) <==> m > 0.5 || fidelity >= m
  {
    if m > 0.5 || fidelity >= m {
      forall ops: seq<Op>, skipped: set<int>, k: nat |
        k < |ops| && ops[k].Reserve? && Skippable(ops, skipped, fidelity, m) && m <= ops[k].wanted.minFidelity
        ensures SameReservation(decay, ops, skipped, k)
      {
        PurgingIsUnobservable(decay, ops, skipped, m, k);
      }
    } else {
      var pair := EntanglementPair("p", "a", "b", fidelity, 0.0, 150.0, false, None);
      var ops := PurgeAtOnce(pair, m);
      PurgeOfWeakPairShows(decay, pair, m);
      assert Skippable(ops, {1}, fidelity, m) && !SameReservation(decay, ops, {1}, 2);
    }
  }

  lemma {:induction false} PoolOfOne(decay: Decay, op: Op, skipped: set<int>)
    requires 0 !in skipped
    ensures PoolAfter(decay, [op], skipped) == Step(decay, [], op)
  {
    assert [op][..0] == [];
  }

  lemma {:induction false} PoolOfTwo(decay: Decay, first: Op, second: Op)
    ensures PoolAfter(decay, [first, second], {}) == Step(decay, Step(decay, [], first), second)
    ensures PoolAfter(decay, [first, second], {1}) == Step(decay, [], first)
  {
    assert [first, second][..1] == [first];
    PoolOfOne(decay, first, {});
    PoolOfOne(decay, first, {1});
  }

  lemma {:induction false} OnePair(
      decay: Decay, pair: EntanglementPair, minFidelity: real, now: real, wanted: Wanted, later: real)
    ensures Kept(decay, [pair], minFidelity, now) == if IsExpired(decay, pair, minFidelity, now) then [] else [pair]
    ensures Best(decay, [pair], wanted, later) == if Usable(decay, pair, wanted, later) then Some(pair) else None
    ensures Best(decay, [], wanted, later) == None
  {
    assert [pair][..0] == [];
  }

  // ---------------------------------------------------------------------------------------
  // Pairs are handed out once, and only pairs that were generated
  // ---------------------------------------------------------------------------------------

  /** No unused pair of this id is left. */
  ghost predicate Spent(pool: Pool, id: string) {
    forall pair :: pair in pool && pair.id == id ==> pair.consumed
  }

  lemma {:induction false} InsertedSpent(pool: Pool, pair: EntanglementPair, id: string)
    requires Spent(pool, id) && pair.id != id
    ensures Spent(Inserted(pool, pair), id)
  {
    if pool != [] {
      assert pool == [pool[0]] + pool[1..];
      InsertedSpent(pool[1..], pair, id);
    }
  }

  lemma {:induction false} StepKeepsSpent(decay: Decay, pool: Pool, op: Op, id: string)
    requires Spent(pool, id) && (op.Generate? ==> op.pair.id != id)
    ensures Spent(Step(decay, pool, op), id)
  {
    match op
    case Generate(pair) => InsertedSpent(pool, pair, id);
    case Reserve(wanted, now, takenAt) =>
      var after := Step(decay, pool, op);
      forall i | 0 <= i < |after|
        ensures after[i].id == id ==> after[i].consumed
      {
        assert pool[i] in pool;
      }
    case Purge(minFidelity, now) => KeptMembers(decay, pool, minFidelity, now);
  }

  lemma {:induction false} LaterIdsDiffer(ops: seq<Op>, j: nat, k: nat, id: string)
    requires FreshIds(ops) && j <= k < |ops| && GeneratedIn(ops[..j], id)
    ensures ops[k].Generate? ==> ops[k].pair.id != id
  {
    var i :| 0 <= i < j && ops[..j][i].Generate? && ops[..j][i].pair.id == id;
    assert ops[i] == ops[..j][i];
  }

  lemma {:induction false} PoolStep(decay: Decay, ops: seq<Op>, skipped: set<int>, k: nat)
    requires k < |ops|
    ensures PoolAfter(decay, ops[..k + 1], skipped) ==
      (if k in skipped then PoolAfter(decay, ops[..k], skipped)
       else Step(decay, PoolAfter(decay, ops[..k], skipped), ops[k]))
  {
    assert ops[..k + 1][..k] == ops[..k];
  }

  lemma {:induction false} SpentOneMore(decay: Decay, ops: seq<Op>, skipped: set<int>, k: nat, id: string)
    requires 0 < k <= |ops| && Spent(PoolAfter(decay, ops[..k - 1], skipped), id)
    requires ops[k - 1].Generate? ==> ops[k - 1].pair.id != id
    ensures Spent(PoolAfter(decay, ops[..k], skipped), id)
  {
    PoolStep(decay, ops, skipped, k - 1);
    StepKeepsSpent(decay, PoolAfter(decay, ops[..k - 1], skipped), ops[k - 1], id);
  }

  lemma {:induction false} StaysSpent(decay: Decay, ops: seq<Op>, skipped: set<int>, j: nat, k: nat, id: string)
    requires FreshIds(ops) && j <= k <= |ops|
    requires GeneratedIn(ops[..j], id) && Spent(PoolAfter(decay, ops[..j], skipped), id)
    ensures Spent(PoolAfter(decay, ops[..k], skipped), id)
    decreases k
  {
    if j < k {
      StaysSpent(decay, ops, skipped, j, k - 1, id);
      LaterIdsDiffer(ops, j, k - 1, id);
      SpentOneMore(decay, ops, skipped, k, id);
    }
  }

  lemma {:induction false} BestIsThere(decay: Decay, pool: Pool, wanted: Wanted, now: real)
    ensures
      var best := Best(decay, pool, wanted, now);
      best.Some? ==> best.value in pool && !best.value.consumed && Joins(best.value, wanted.a, wanted.b)
  {
    var best := Best(decay, pool, wanted, now);
    if best.Some? {
      var k :| IsFirstBest(decay, pool, wanted, now, k, best.value);
    }
  }

  lemma {:induction false} ConsumedIsSpent(pool: Pool, id: string, at: real)
    ensures Spent(Consumed(pool, id, at), id)
  {
  }

  /** Two reservations never return the same pair. */
  lemma {:induction false} PairsAreSingleUse(decay: Decay, ops: seq<Op>, skipped: set<int>, j: nat, k: nat)
    requires FreshIds(ops) && j < k < |ops| && ops[j].Reserve? && ops[k].Reserve? && j !in skipped
    requires Outcome(decay, PoolAfter(decay, ops[..j], skipped), ops[j]).Some?
    requires Outcome(decay, PoolAfter(decay, ops[..k], skipped), ops[k]).Some?
    ensures Outcome(decay, PoolAfter(decay, ops[..j], skipped), ops[j]).value.id
      != Outcome(decay, PoolAfter(decay, ops[..k], skipped), ops[k]).value.id
  {
    var before := PoolAfter(decay, ops[..j], skipped);
    var id := Outcome(decay, before, ops[j]).value.id;
    BestIsThere(decay, before, ops[j].wanted, ops[j].now);
    PoolStep(decay, ops, skipped, j);
    ConsumedIsSpent(before, id, ops[j].takenAt);
    GeneratedBefore(decay, ops, skipped, j, id);
    StaysSpent(decay, ops, skipped, j + 1, k, id);
    BestIsThere(decay, PoolAfter(decay, ops[..k], skipped), ops[k].wanted, ops[k].now);
  }

  lemma {:induction false} GeneratedBefore(decay: Decay, ops: seq<Op>, skipped: set<int>, j: nat, id: string)
    requires FreshIds(ops) && j < |ops|
    requires exists pair :: pair in PoolAfter(decay, ops[..j], skipped) && pair.id == id
    ensures GeneratedIn(ops[..j + 1], id)
  {
    PrefixFresh(ops, j);
    RunsFromRun(decay, ops[..j], skipped, 1.0);
    assert ops[..j + 1][..j] == ops[..j];
    GeneratedLonger(ops[..j + 1], id);
  }

  lemma {:induction false} PrefixFresh(ops: seq<Op>, n: nat)
    requires FreshIds(ops) && n <= |ops|
    ensures FreshIds(ops[..n])
  {
    var front := ops[..n];
    assert forall i :: 0 <= i < n ==> front[i] == ops[i];
  }

  ghost function Unused(pool: Pool, a: string, b: string): int {
    if pool == [] then 0
    else
      var last := pool[|pool| - 1];
      Unused(pool[..|pool| - 1], a, b) + if !last.consumed && Joins(last, a, b) then 1 else 0
  }

  ghost function GeneratedBy(op: Op, a: string, b: string): int {
    if op.Generate? && Joins(op.pair, a, b) then 1 else 0
  }

  ghost function ReservedBy(decay: Decay, pool: Pool, op: Op, a: string, b: string): int {
    var found := if op.Reserve? then Outcome(decay, pool, op) else None;
    if found.Some? && Joins(found.value, a, b) then 1 else 0
  }

  /** How many pairs the run generated between the two nodes. */
  ghost function Generated(ops: seq<Op>, a: string, b: string): int {
    if ops == [] then 0 else Generated(ops[..|ops| - 1], a, b) + GeneratedBy(ops[|ops| - 1], a, b)
  }

  /** How many of its reservations returned one of them. */
  ghost function Reserved(decay: Decay, ops: seq<Op>, a: string, b: string): int {
    if ops == [] then 0
    else
      var front := ops[..|ops| - 1];
      Reserved(decay, front, a, b) + ReservedBy(decay, PoolAfter(decay, front, {}), ops[|ops| - 1], a, b)
  }

  lemma {:induction false} ConsumingNone(pool: Pool, id: string, at: real, a: string, b: string)
    requires forall pair :: pair in pool ==> pair.id != id
    ensures Unused(Consumed(pool, id, at), a, b) == Unused(pool, a, b)
  {
    assert Consumed(pool, id, at) == pool by {
      assert forall i :: 0 <= i < |pool| ==> pool[i] in pool;
    }
  }

  lemma {:induction false} ConsumingOne(pool: Pool, pair: EntanglementPair, at: real, a: string, b: string)
    requires UniqueIds(pool) && pair in pool && !pair.consumed
    ensures Unused(Consumed(pool, pair.id, at), a, b) == Unused(pool, a, b) - if Joins(pair, a, b) then 1 else 0
  {
    var front, last := pool[..|pool| - 1], pool[|pool| - 1];
    assert Consumed(pool, pair.id, at)[..|front|] == Consumed(front, pair.id, at);
    if last == pair {
      forall other | other in front
        ensures other.id != pair.id
      {
        var i :| 0 <= i < |front| && front[i] == other;
      }
      ConsumingNone(front, pair.id, at, a, b);
    } else {
      assert pair in front;
      var i :| 0 <= i < |front| && front[i] == pair;
      assert pool[i].id != last.id;
      ConsumingOne(front, pair, at, a, b);
    }
  }

  lemma {:induction false} UnusedOneMore(pool: Pool, pair: EntanglementPair, a: string, b: string)
    ensures Unused(pool + [pair], a, b) == Unused(pool, a, b) + if !pair.consumed && Joins(pair, a, b) then 1 else 0
  {
    assert (pool + [pair])[..|pool|] == pool;
  }

  lemma {:induction false} KeptUnused(decay: Decay, pool: Pool, minFidelity: real, now: real, a: string, b: string)
    ensures Unused(Kept(decay, pool, minFidelity, now), a, b) <= Unused(pool, a, b)
  {
    if pool != [] {
      var front, last := pool[..|pool| - 1], pool[|pool| - 1];
      KeptUnused(decay, front, minFidelity, now, a, b);
      KeptOneMore(decay, front, last, minFidelity, now);
      assert pool == front + [last];
      UnusedOneMore(front, last, a, b);
      UnusedOneMore(Kept(decay, front, minFidelity, now), last, a, b);
    }
  }

  lemma {:induction false} StepConserves(decay: Decay, pool: Pool, op: Op, a: string, b: string)
    requires UniqueIds(pool)
    requires op.Generate? ==> !op.pair.consumed && forall other :: other in pool ==> other.id != op.pair.id
    ensures Unused(Step(decay, pool, op), a, b) + ReservedBy(decay, pool, op, a, b)
      <= Unused(pool, a, b) + GeneratedBy(op, a, b)
    ensures !op.Purge? ==>
      Unused(Step(decay, pool, op), a, b) + ReservedBy(decay, pool, op, a, b)
      == Unused(pool, a, b) + GeneratedBy(op, a, b)
  {
    match op
    case Generate(pair) =>
      InsertedNew(pool, pair);
      assert (pool + [pair])[..|pool|] == pool;
    case Reserve(wanted, now, takenAt) =>
      var best := Best(decay, pool, wanted, now);
      if best.Some? {
        BestIsThere(decay, pool, wanted, now);
        ConsumingOne(pool, best.value, takenAt, a, b);
      }
    case Purge(minFidelity, now) => KeptUnused(decay, pool, minFidelity, now, a, b);
  }

  ghost predicate NoPurge(ops: seq<Op>) {
    forall i :: 0 <= i < |ops| ==> !ops[i].Purge?
  }

  /** Between any two nodes, pairs reserved and pairs still unused never exceed pairs generated; without purges
      they account for all of them. */
  lemma {:induction false} PairsAreConserved(decay: Decay, ops: seq<Op>, a: string, b: string)
    requires FreshIds(ops)
    ensures Reserved(decay, ops, a, b) + Unused(PoolAfter(decay, ops, {}), a, b) <= Generated(ops, a, b)
    ensures NoPurge(ops) ==>
      Reserved(decay, ops, a, b) + Unused(PoolAfter(decay, ops, {}), a, b) == Generated(ops, a, b)
  {
    if ops != [] {
      var front := ops[..|ops| - 1];
      FreshFront(ops);
      PairsAreConserved(decay, front, a, b);
      RunsFromRun(decay, front, {}, 1.0);
      StepConserves(decay, PoolAfter(decay, front, {}), ops[|ops| - 1], a, b);
    }
  }
}
