/** The entanglement pool manager: its loops take the steps that EntanglementRuns reasons about. */
module EntanglementPool {
  import opened Wrappers
  import opened Entanglement
  import opened EntanglementRuns

  /** The pairs of one call of GeneratePairs. */
  ghost function NewPairs(
      a: string, b: string, fidelity: real, coherenceMs: real, ids: seq<string>, clock: seq<real>)
    : (pool: Pool)
    requires |ids| == |clock|
    ensures |pool| == |ids|
  {
    seq(|ids|, i requires 0 <= i < |ids| =>
      EntanglementPair(ids[i], a, b, fidelity, clock[i], coherenceMs, false, None))
  }

  ghost predicate NewIds(ids: seq<string>, pool: Pool) {
    && (forall i, j :: 0 <= i < j < |ids| ==> ids[i] != ids[j])
    && (forall i, j :: 0 <= i < |ids| && 0 <= j < |pool| ==> ids[i] != pool[j].id)
  }

  ghost function Generations(pairs: Pool): (ops: seq<Op>)
    ensures |ops| == |pairs|
  {
    seq(|pairs|, i requires 0 <= i < |pairs| => Generate(pairs[i]))
  }

  lemma {:induction false} OneMoreCreated(
      a: string, b: string, fidelity: real, coherenceMs: real, ids: seq<string>, clock: seq<real>, i: nat)
    requires |ids| == |clock| && i < |ids|
    ensures
      var before := NewPairs(a, b, fidelity, coherenceMs, ids[..i], clock[..i]);
      var pair := EntanglementPair(ids[i], a, b, fidelity, clock[i], coherenceMs, false, None);
      && NewPairs(a, b, fidelity, coherenceMs, ids[..i + 1], clock[..i + 1]) == before + [pair]
      && Generations(before + [pair]) == Generations(before) + [Generate(pair)]
  {
  }

  lemma {:induction false} NewPairGoesLast(pool: Pool, created: Pool, pair: EntanglementPair, ids: seq<string>)
    requires |created| < |ids| && pair.id == ids[|created|]
    requires forall j :: 0 <= j < |created| ==> created[j].id == ids[j]
    ensures NewIds(ids, pool) ==> Inserted(pool + created, pair) == pool + (created + [pair])
  {
    if NewIds(ids, pool) {
      forall other | other in pool + created
        ensures other.id != pair.id
      {
        var j :| 0 <= j < |pool + created| && (pool + created)[j] == other;
      }
      InsertedNew(pool + created, pair);
      assert pool + created + [pair] == pool + (created + [pair]);
    }
  }

  lemma {:induction false} PoolOneMore(decay: Decay, ops: seq<Op>, op: Op)
    ensures PoolAfter(decay, ops + [op], {}) == Step(decay, PoolAfter(decay, ops, {}), op)
  {
    assert (ops + [op])[..|ops|] == ops;
  }

  class EntanglementPoolManager {
    const decay: Decay
    var pairs: seq<EntanglementPair>
    ghost var ops: seq<Op>

    /** The pool is the one that the operations so far leave. */
    ghost predicate Valid()
      reads this
    {
      UniqueIds(pairs) && pairs == PoolAfter(decay, ops, {})
    }

    constructor (decay: Decay)
      ensures Valid() && this.decay == decay && ops == []
    {
      this.decay := decay;
      pairs, ops := [], [];
    }

    /** The ids are random in the source; there is a clock reading for each pair. A repeated id replaces the pair
        that had it. */
    method GeneratePairs(
        a: string, b: string, fidelity: real, coherenceMs: real, ids: seq<string>, clock: seq<real>)
      returns (created: seq<EntanglementPair>)
      requires Valid() && |ids| == |clock|
      modifies this
      ensures Valid() && created == NewPairs(a, b, fidelity, coherenceMs, ids, clock)
      ensures forall i :: 0 <= i < |ids| ==>
        created[i] == EntanglementPair(ids[i], a, b, fidelity, clock[i], coherenceMs, false, None)
      ensures ops == old(ops) + Generations(created)
      ensures NewIds(ids, old(pairs)) ==> pairs == old(pairs) + created
    {
      created := [];
      for i := 0 to |ids|
        invariant Valid() && ops == old(ops) + Generations(created)
        invariant created == NewPairs(a, b, fidelity, coherenceMs, ids[..i], clock[..i])
        invariant NewIds(ids, old(pairs)) ==> pairs == old(pairs) + created
      {
        var pair := EntanglementPair(ids[i], a, b, fidelity, clock[i], coherenceMs, false, None);
        OneMoreCreated(a, b, fidelity, coherenceMs, ids, clock, i);
        NewPairGoesLast(old(pairs), created, pair, ids);
        Insert(pair);
        created := created + [pair];
      }
      assert ids[..|ids|] == ids && clock[..|clock|] == clock;
    }

    method Insert(pair: EntanglementPair)
      requires Valid()
      modifies this
      ensures Valid() && pairs == Inserted(old(pairs), pair) && ops == old(ops) + [Generate(pair)]
    {
      InsertedAt(pairs, pair);
      PoolOneMore(decay, ops, Generate(pair));
      pairs := Inserted(pairs, pair);
      ops := ops + [Generate(pair)];
    }

    /** The clock is read once to choose the pair and once more to mark it. */
    method ReservePair(a: string, b: string, minFidelity: real, now: real, takenAt: real)
      returns (r: Option<EntanglementPair>)
      requires Valid()
      modifies this
      ensures Valid() && ops == old(ops) + [Reserve(Wanted(a, b, minFidelity), now, takenAt)]
      ensures
        var best := Outcome(decay, old(pairs), Reserve(Wanted(a, b, minFidelity), now, takenAt));
        r == if best.Some? then Some(Used(best.value, takenAt)) else None
      ensures r == None ==> pairs == old(pairs) && NoneFits(decay, pairs, a, b, minFidelity, now)
      ensures r.Some? ==> multiset{r.value.nodeA, r.value.nodeB} == multiset{a, b}
      ensures r.Some? ==> exists k ::
        && FirstFitting(decay, old(pairs), a, b, minFidelity, now, k)
        && r.value == old(pairs)[k].(consumed := true, consumedAt := Some(takenAt))
        && pairs == old(pairs)[k := r.value]
    {
      var chosen := FindBest(Wanted(a, b, minFidelity), now);
      ghost var op := Reserve(Wanted(a, b, minFidelity), now, takenAt);
      PoolOneMore(decay, ops, op);
      ops := ops + [op];
      BestFits(decay, pairs, a, b, minFidelity, now);
      if chosen < 0 {
        return None;
      }
      ChosenFits(decay, pairs, a, b, minFidelity, now, chosen);
      var pair := Used(pairs[chosen], takenAt);
      ConsumedAt(pairs, chosen, takenAt);
      pairs := pairs[chosen := pair];
      r := Some(pair);
    }

    /** The index of the first usable pair of greatest fidelity, or -1. */
    method FindBest(wanted: Wanted, now: real) returns (chosen: int)
      ensures -1 <= chosen < |pairs|
      ensures Best(decay, pairs, wanted, now) == if chosen < 0 then None else Some(pairs[chosen])
    {
      chosen := -1;
      for i := 0 to |pairs|
        invariant -1 <= chosen < i
        invariant Best(decay, pairs[..i], wanted, now) == if chosen < 0 then None else Some(pairs[chosen])
      {
        assert pairs[..i + 1][..i] == pairs[..i];
        if Usable(decay, pairs[i], wanted, now) {
          if chosen < 0 || CurrentFidelity(decay, pairs[i], now) > CurrentFidelity(decay, pairs[chosen], now) {
            chosen := i;
          }
        }
      }
      assert pairs[..|pairs|] == pairs;
    }

    method PurgeExpired(minFidelity: real, now: real) returns (removed: nat)
      requires Valid()
      modifies this
      ensures Valid() && ops == old(ops) + [Purge(minFidelity, now)]
      ensures pairs == Kept(decay, old(pairs), minFidelity, now) && removed == |old(pairs)| - |pairs|
      ensures forall pair :: pair in pairs <==>
        pair in old(pairs) && !pair.consumed && CurrentFidelity(decay, pair, now) >= minFidelity
    {
      var kept;
      kept, removed := Unexpired(minFidelity, now);
      KeptUnique(decay, pairs, minFidelity, now);
      KeptMembers(decay, pairs, minFidelity, now);
      PoolOneMore(decay, ops, Purge(minFidelity, now));
      pairs := kept;
      ops := ops + [Purge(minFidelity, now)];
    }

    method Unexpired(minFidelity: real, now: real) returns (kept: seq<EntanglementPair>, removed: nat)
      ensures kept == Kept(decay, pairs, minFidelity, now) && removed == |pairs| - |kept|
    {
      kept, removed := [], 0;
      for i := 0 to |pairs|
        invariant kept == Kept(decay, pairs[..i], minFidelity, now) && removed == i - |kept|
      {
        assert pairs[..i + 1][..i] == pairs[..i];
        if IsExpired(decay, pairs[i], minFidelity, now) {
          removed := removed + 1;
        } else {
          kept := kept + [pairs[i]];
        }
      }
      assert pairs[..|pairs|] == pairs;
    }
  }
}
