/** DistributedMeasurementAggregator.aggregate: the recursion that fills the joint dictionary, before rounding. */
module MeasurementAggregator {
  import opened Aggregation

  datatype Measurement = Measurement(node: string, counts: Histogram)

  datatype Aggregate = Aggregate(joint: Masses, normalised: Masses, totalShots: int, nodes: seq<string>)

  ghost function Histograms(measurements: seq<Measurement>): (r: seq<Histogram>)
    ensures |r| == |measurements|
  {
    seq(|measurements|, i requires 0 <= i < |measurements| => measurements[i].counts)
  }

  // ---------------------------------------------------------------------------------------
  // Prefixing twice
  // ---------------------------------------------------------------------------------------

  ghost predicate Regroups(times: Product, x: real, y: real, z: real) {
    times(times(x, y), z) == times(x, times(y, z))
  }

  ghost predicate Associative(times: Product) {
    forall x, y, z :: Regroups(times, x, y, z)
  }

  lemma {:induction false} TimesIsAssociative()
    ensures Associative(TIMES)
  {
  }

  lemma {:induction false} PrefixedTwice(
      times: Product, outer: string, p: real, inner: string, q: real, tail: Masses)
    requires Associative(times)
    ensures Prefixed(times, outer, p, Prefixed(times, inner, q, tail))
      == Prefixed(times, outer + inner, times(p, q), tail)
  {
    if tail != [] {
      var front, last := tail[..|tail| - 1], tail[|tail| - 1];
      PrefixedTwice(times, outer, p, inner, q, front);
      var once := Prefixed(times, inner, q, front);
      assert Prefixed(times, inner, q, tail)[..|once|] == once;
      assert Regroups(times, p, q, last.mass);
      assert (outer + inner) + last.key == outer + (inner + last.key);
    }
  }

  lemma {:induction false} PrefixedConcatenation(times: Product, prefix: string, p: real, a: Masses, b: Masses)
    ensures Prefixed(times, prefix, p, a + b) == Prefixed(times, prefix, p, a) + Prefixed(times, prefix, p, b)
  {
    if b == [] {
      assert a + b == a;
    } else {
      assert (a + b)[..|a + b| - 1] == a + b[..|b| - 1];
      PrefixedConcatenation(times, prefix, p, a, b[..|b| - 1]);
    }
  }

  lemma {:induction false} PrefixedByNothing(times: Product, tail: Masses)
    requires Multiplies(times)
    ensures Prefixed(times, "", 1.0, tail) == tail
  {
    if tail != [] {
      PrefixedByNothing(times, tail[..|tail| - 1]);
      var last := tail[|tail| - 1];
      assert "" + last.key == last.key && KeepsUnit(times, last.mass);
    }
  }

  /** What the calls below one prefix add to the dictionary. */
  ghost function Below(times: Product, prefix: string, p: real, node: Masses, tail: Masses): Masses {
    Prefixed(times, prefix, p, Crossed(times, node, tail))
  }

  lemma {:induction false} OneMoreOutcome(
      times: Product, prefix: string, p: real, node: Masses, tail: Masses, joint: Masses)
    requires node != [] && Associative(times)
    ensures
      var front, last := node[..|node| - 1], node[|node| - 1];
      AddedAll(joint, Below(times, prefix, p, node, tail))
      == AddedAll(
        AddedAll(joint, Below(times, prefix, p, front, tail)),
        Prefixed(times, prefix + last.key, times(p, last.mass), tail))
  {
    var front, last := node[..|node| - 1], node[|node| - 1];
    PrefixedConcatenation(
      times, prefix, p, Crossed(times, front, tail), Prefixed(times, last.key, last.mass, tail));
    PrefixedTwice(times, prefix, p, last.key, last.mass, tail);
    AddedAllConcatenation(
      joint, Below(times, prefix, p, front, tail),
      Prefixed(times, prefix + last.key, times(p, last.mass), tail));
  }

  lemma {:induction false} LastLevel(times: Product, prefix: string, p: real, joint: Masses)
    requires Multiplies(times)
    ensures AddedAll(joint, Prefixed(times, prefix, p, Outcomes(times, []))) == Added(joint, prefix, p)
  {
    var one := [Entry("", 1.0)];
    assert one[..0] == [] && KeepsUnit(times, p);
    assert Prefixed(times, prefix, p, one) == [Entry(prefix + "", times(p, 1.0))];
    assert prefix + "" == prefix;
    assert [Entry(prefix, p)][..0] == [];
  }

  /** The dictionary after the recursion below one prefix; upTo counts the outcomes taken at the first node. */
  ghost function Filled(times: Product, nodes: seq<Histogram>, prefix: string, p: real, joint: Masses): Masses
    decreases |nodes|, 1, 0
  {
    if nodes == [] then Added(joint, prefix, p) else FilledUpTo(times, nodes, |nodes[0]|, prefix, p, joint)
  }

  ghost function FilledUpTo(
      times: Product, nodes: seq<Histogram>, upTo: nat, prefix: string, p: real, joint: Masses): Masses
    requires nodes != [] && upTo <= |nodes[0]|
    decreases |nodes|, 0, upTo
  {
    if upTo == 0 then joint
    else
      var tally := nodes[0][upTo - 1];
      Filled(
        times, nodes[1..], prefix + tally.outcome, times(p, Share(tally.count, Divisor(nodes[0]))),
        FilledUpTo(times, nodes, upTo - 1, prefix, p, joint))
  }

  /** The recursion adds the outcomes of the Cartesian product in order. */
  lemma {:induction false} FilledAddsOutcomes(
      times: Product, nodes: seq<Histogram>, prefix: string, p: real, joint: Masses)
    requires Multiplies(times) && Associative(times)
    ensures Filled(times, nodes, prefix, p, joint)
      == AddedAll(joint, Prefixed(times, prefix, p, Outcomes(times, nodes)))
    decreases |nodes|, 1, 0
  {
    if nodes == [] {
      LastLevel(times, prefix, p, joint);
    } else {
      var node := Distribution(nodes[0]);
      FilledUpToAddsOutcomes(times, nodes, |nodes[0]|, prefix, p, joint);
      assert node[..|nodes[0]|] == node;
    }
  }

  lemma {:induction false} LastTally(counts: Histogram, upTo: nat)
    requires 0 < upTo <= |counts|
    ensures
      var node := Distribution(counts)[..upTo];
      && node[..upTo - 1] == Distribution(counts)[..upTo - 1]
      && node[upTo - 1] == Entry(counts[upTo - 1].outcome, Share(counts[upTo - 1].count, Divisor(counts)))
  {
  }

  lemma {:induction false} NoTally(times: Product, prefix: string, p: real, node: Masses, tail: Masses, joint: Masses)
    ensures AddedAll(joint, Below(times, prefix, p, node[..0], tail)) == joint
  {
    assert node[..0] == [];
  }

  lemma {:induction false} FilledUpToAddsOutcomes(
      times: Product, nodes: seq<Histogram>, upTo: nat, prefix: string, p: real, joint: Masses)
    requires Multiplies(times) && Associative(times) && nodes != [] && upTo <= |nodes[0]|
    ensures FilledUpTo(times, nodes, upTo, prefix, p, joint)
      == AddedAll(
        joint, Below(times, prefix, p, Distribution(nodes[0])[..upTo], Outcomes(times, nodes[1..])))
    decreases |nodes|, 0, upTo
  {
    var node, tail := Distribution(nodes[0]), Outcomes(times, nodes[1..]);
    if upTo == 0 {
      NoTally(times, prefix, p, node, tail, joint);
    } else {
      var last := node[upTo - 1];
      var before := FilledUpTo(times, nodes, upTo - 1, prefix, p, joint);
      LastTally(nodes[0], upTo);
      FilledUpToAddsOutcomes(times, nodes, upTo - 1, prefix, p, joint);
      FilledAddsOutcomes(times, nodes[1..], prefix + last.key, times(p, last.mass), before);
      OneMoreOutcome(times, prefix, p, node[..upTo], tail, joint);
    }
  }

  lemma {:induction false} FilledIsJoint(nodes: seq<Histogram>)
    ensures Filled(TIMES, nodes, "", 1.0, []) == Joint(nodes)
  {
    TimesMultiplies();
    TimesIsAssociative();
    FilledAddsOutcomes(TIMES, nodes, "", 1.0, []);
    PrefixedByNothing(TIMES, Outcomes(TIMES, nodes));
  }

  // ---------------------------------------------------------------------------------------
  // The aggregator
  // ---------------------------------------------------------------------------------------

  method CombineProbabilities(
      nodes: seq<Histogram>, totals: seq<int>, idx: nat, prefix: string, current: real, joint: Masses)
    returns (r: Masses)
    requires idx <= |nodes| == |totals|
    requires forall i :: 0 <= i < |nodes| ==> totals[i] == Divisor(nodes[i])
    ensures r == Filled(TIMES, nodes[idx..], prefix, current, joint)
    decreases |nodes| - idx
  {
    if idx == |nodes| {
      return Added(joint, prefix, current);
    }
    var counts, total := nodes[idx], totals[idx];
    ghost var rest := nodes[idx..];
    assert rest[0] == counts && rest[1..] == nodes[idx + 1..];
    r := joint;
    for i := 0 to |counts|
      invariant r == FilledUpTo(TIMES, rest, i, prefix, current, joint)
    {
      var p := counts[i].count as real / total as real;
      assert rest[0][i] == counts[i];
      assert TIMES(current, Share(counts[i].count, Divisor(counts))) == current * p;
      r := CombineProbabilities(nodes, totals, idx + 1, prefix + counts[i].outcome, current * p, r);
    }
  }

  method Sum(counts: Histogram) returns (total: int)
    ensures total == TotalCount(counts)
  {
    total := 0;
    for i := 0 to |counts|
      invariant total == TotalCount(counts[..i])
    {
      assert counts[..i + 1][..i] == counts[..i];
      total := total + counts[i].count;
    }
    assert counts[..|counts|] == counts;
  }

  method SumMasses(masses: Masses) returns (total: real)
    ensures total == Total(masses)
  {
    total := 0.0;
    for i := 0 to |masses|
      invariant total == Total(masses[..i])
    {
      assert masses[..i + 1][..i] == masses[..i];
      total := total + masses[i].mass;
    }
    assert masses[..|masses|] == masses;
  }

  /** The smallest of the totals. */
  method Smallest(totals: seq<int>) returns (least: int)
    requires totals != []
    ensures least in totals && forall i :: 0 <= i < |totals| ==> least <= totals[i]
  {
    least := totals[0];
    for i := 1 to |totals|
      invariant least in totals && forall j :: 0 <= j < i ==> least <= totals[j]
    {
      if totals[i] < least {
        least := totals[i];
      }
    }
  }

  /** The shots of a node: the sum of its counts, or one if that is zero. */
  ghost function Shots(measurement: Measurement): int {
    if TotalCount(measurement.counts) != 0 then TotalCount(measurement.counts) else 1
  }

  /** In exact arithmetic the normalisation changes nothing, whatever the counts. */
  method AggregateMeasurements(measurements: seq<Measurement>) returns (r: Aggregate)
    ensures measurements == [] ==> r == Aggregate([], [], 0, [])
    ensures measurements != [] ==> r.joint == r.normalised == Joint(Histograms(measurements))
    ensures |r.nodes| == |measurements| && forall i :: 0 <= i < |r.nodes| ==> r.nodes[i] == measurements[i].node
    ensures forall i :: 0 <= i < |measurements| ==> r.totalShots <= Shots(measurements[i])
    ensures measurements != [] ==> exists i :: 0 <= i < |measurements| && r.totalShots == Shots(measurements[i])
  {
    if measurements == [] {
      return Aggregate([], [], 0, []);
    }
    var names: seq<string>, nodes: seq<Histogram>, totals: seq<int> := [], [], [];
    for i := 0 to |measurements|
      invariant |names| == |nodes| == |totals| == i
      invariant forall j :: 0 <= j < i ==> names[j] == measurements[j].node && nodes[j] == measurements[j].counts
      invariant forall j :: 0 <= j < i ==> totals[j] == Divisor(measurements[j].counts)
    {
      var sum := Sum(measurements[i].counts);
      names := names + [measurements[i].node];
      nodes := nodes + [measurements[i].counts];
      totals := totals + [if sum == 0 then 1 else sum];
    }
    assert nodes == Histograms(measurements);
    assert nodes[0..] == nodes;
    var joint := CombineProbabilities(nodes, totals, 0, "", 1.0, []);
    FilledIsJoint(nodes);
    var sum := SumMasses(joint);
    ProbabilityIsConserved(nodes);
    var probSum := if sum == 0.0 then 1.0 else sum;
    var normalised := Divided(joint, probSum);
    var shots := Smallest(totals);
    r := Aggregate(joint, normalised, shots, names);
  }

  method Divided(masses: Masses, divisor: real) returns (r: Masses)
    requires divisor != 0.0
    ensures |r| == |masses|
    ensures forall i :: 0 <= i < |masses| ==> r[i] == Entry(masses[i].key, masses[i].mass / divisor)
    ensures divisor == 1.0 ==> r == masses
  {
    r := [];
    for i := 0 to |masses|
      invariant |r| == i
      invariant forall j :: 0 <= j < i ==> r[j] == Entry(masses[j].key, masses[j].mass / divisor)
    {
      r := r + [Entry(masses[i].key, masses[i].mass / divisor)];
    }
    if divisor == 1.0 {
      forall j | 0 <= j < |masses|
        ensures r[j] == masses[j]
      {
        assert masses[j].mass / divisor == masses[j].mass;
      }
    }
  }
}
