/** quantum_network_contract.py: joint distributions from per-node measurement counts, over exact arithmetic. */
module Aggregation {

  /** Dictionaries keep their insertion order. */
  datatype Tally = Tally(outcome: string, count: int)
  datatype Entry = Entry(key: string, mass: real)

  type Histogram = seq<Tally>
  type Masses = seq<Entry>

  // ---------------------------------------------------------------------------------------
  // Sums
  // ---------------------------------------------------------------------------------------

  function TotalCount(counts: Histogram): int {
    if counts == [] then 0 else TotalCount(counts[..|counts| - 1]) + counts[|counts| - 1].count
  }

  function Divisor(counts: Histogram): int {
    if TotalCount(counts) == 0 then 1 else TotalCount(counts)
  }

  ghost function Total(masses: Masses): real {
    if masses == [] then 0.0 else Total(masses[..|masses| - 1]) + masses[|masses| - 1].mass
  }

  /** The mass of the entries with this key. */
  ghost function MassOf(masses: Masses, key: string): real {
    if masses == [] then 0.0
    else
      var last := masses[|masses| - 1];
      MassOf(masses[..|masses| - 1], key) + if last.key == key then last.mass else 0.0
  }

  predicate Shows(key: string, at: nat, part: string) {
    at + |part| <= |key| && key[at..at + |part|] == part
  }

  /** The mass of the entries whose keys have this part at this position. */
  ghost function MassAt(masses: Masses, at: nat, part: string): real {
    if masses == [] then 0.0
    else
      var last := masses[|masses| - 1];
      MassAt(masses[..|masses| - 1], at, part) + if Shows(last.key, at, part) then last.mass else 0.0
  }

  lemma {:induction false} SumsOfConcatenation(a: Masses, b: Masses, key: string, at: nat)
    ensures Total(a + b) == Total(a) + Total(b)
    ensures MassOf(a + b, key) == MassOf(a, key) + MassOf(b, key)
    ensures MassAt(a + b, at, key) == MassAt(a, at, key) + MassAt(b, at, key)
  {
    if b == [] {
      assert a + b == a;
    } else {
      var front := b[..|b| - 1];
      SumsOfConcatenation(a, front, key, at);
      assert (a + b)[..|a + b| - 1] == a + front;
    }
  }

  // ---------------------------------------------------------------------------------------
  // Accumulating into a dictionary
  // ---------------------------------------------------------------------------------------

  /** Adding to the entry of that key, a new one if there is none. */
  function Added(masses: Masses, key: string, mass: real): Masses {
    if masses == [] then [Entry(key, 0.0 + mass)]
    else if masses[0].key == key then [Entry(key, masses[0].mass + mass)] + masses[1..]
    else [masses[0]] + Added(masses[1..], key, mass)
  }

  ghost function AddedAll(masses: Masses, more: Masses): Masses {
    if more == [] then masses
    else
      var last := more[|more| - 1];
      Added(AddedAll(masses, more[..|more| - 1]), last.key, last.mass)
  }

  ghost predicate UniqueKeys(masses: Masses) {
    forall i, j :: 0 <= i < j < |masses| ==> masses[i].key != masses[j].key
  }

  ghost predicate HasKey(masses: Masses, key: string) {
    exists i :: 0 <= i < |masses| && masses[i].key == key
  }

  /** A key that is there keeps its place, a new one goes last. */
  lemma {:induction false} AddedKeepsOrder(masses: Masses, key: string, mass: real)
    ensures
      var added := Added(masses, key, mass);
      && |added| == |masses| + (if HasKey(masses, key) then 0 else 1)
      && (forall i :: 0 <= i < |masses| ==> added[i].key == masses[i].key)
      && (!HasKey(masses, key) ==> added[|masses|].key == key)
  {
    if masses != [] {
      var tail := masses[1..];
      assert masses[0].key == key ==> HasKey(masses, key);
      AddedKeepsOrder(tail, key, mass);
      if masses[0].key != key {
        if HasKey(tail, key) {
          var i :| 0 <= i < |tail| && tail[i].key == key;
          assert masses[i + 1].key == key;
        }
        if HasKey(masses, key) {
          var i :| 0 <= i < |masses| && masses[i].key == key;
          assert tail[i - 1].key == key;
        }
        assert forall i :: 1 <= i < |masses| ==> masses[i] == tail[i - 1];
      }
    }
  }

  lemma {:induction false} AddedKeepsUnique(masses: Masses, key: string, mass: real)
    requires UniqueKeys(masses)
    ensures UniqueKeys(Added(masses, key, mass))
    ensures forall i :: 0 <= i < |Added(masses, key, mass)| ==>
      Added(masses, key, mass)[i].key == key || HasKey(masses, Added(masses, key, mass)[i].key)
  {
    if masses != [] && masses[0].key != key {
      var tail := masses[1..];
      AddedKeepsUnique(tail, key, mass);
      var added := Added(tail, key, mass);
      forall i | 0 <= i < |added|
        ensures added[i].key != masses[0].key && (added[i].key == key || HasKey(masses, added[i].key))
      {
        if added[i].key != key {
          var j :| 0 <= j < |tail| && tail[j].key == added[i].key;
          assert masses[j + 1].key == added[i].key;
        }
      }
    } else if masses != [] {
      var added := Added(masses, key, mass);
      assert forall i :: 0 <= i < |masses| ==> added[i].key == masses[i].key;
    }
  }

  lemma {:induction false} AddedAllKeepsUnique(masses: Masses, more: Masses)
    requires UniqueKeys(masses)
    ensures UniqueKeys(AddedAll(masses, more))
  {
    if more != [] {
      var last := more[|more| - 1];
      AddedAllKeepsUnique(masses, more[..|more| - 1]);
      AddedKeepsUnique(AddedAll(masses, more[..|more| - 1]), last.key, last.mass);
    }
  }

  /** In a dictionary the mass of a key is what is stored under it. */
  lemma {:induction false} MassIsStored(masses: Masses, i: nat)
    requires UniqueKeys(masses) && i < |masses|
    ensures MassOf(masses, masses[i].key) == masses[i].mass
  {
    var front, key := masses[..|masses| - 1], masses[i].key;
    if i < |front| {
      MassIsStored(front, i);
    } else {
      MassOfAbsent(front, key);
    }
  }

  lemma {:induction false} MassOfAbsent(masses: Masses, key: string)
    requires !HasKey(masses, key)
    ensures MassOf(masses, key) == 0.0
  {
    if masses != [] {
      KeyOfFront(masses, key);
      MassOfAbsent(masses[..|masses| - 1], key);
    }
  }

  lemma {:induction false} KeyOfFront(masses: Masses, key: string)
    requires masses != []
    ensures HasKey(masses[..|masses| - 1], key) ==> HasKey(masses, key)
  {
    var front := masses[..|masses| - 1];
    if i :| 0 <= i < |front| && front[i].key == key {
      assert masses[i].key == key;
    }
  }

  lemma {:induction false} SumsOfAdded(masses: Masses, key: string, mass: real, other: string, at: nat)
    ensures Total(Added(masses, key, mass)) == Total(masses) + mass
    ensures MassOf(Added(masses, key, mass), other) == MassOf(masses, other) + if key == other then mass else 0.0
    ensures MassAt(Added(masses, key, mass), at, other)
      == MassAt(masses, at, other) + if Shows(key, at, other) then mass else 0.0
  {
    if masses == [] {
      assert [Entry(key, 0.0 + mass)][..0] == [];
    } else {
      var head, tail := [masses[0]], masses[1..];
      assert masses == head + tail;
      SumsOfConcatenation(head, tail, other, at);
      assert head[..0] == [];
      if masses[0].key == key {
        var head' := [Entry(key, masses[0].mass + mass)];
        assert head'[..0] == [];
        SumsOfConcatenation(head', tail, other, at);
      } else {
        SumsOfAdded(tail, key, mass, other, at);
        SumsOfConcatenation(head, Added(tail, key, mass), other, at);
      }
    }
  }

  lemma {:induction false} SumsOfAddedAll(masses: Masses, more: Masses, other: string, at: nat)
    ensures Total(AddedAll(masses, more)) == Total(masses) + Total(more)
    ensures MassOf(AddedAll(masses, more), other) == MassOf(masses, other) + MassOf(more, other)
    ensures MassAt(AddedAll(masses, more), at, other) == MassAt(masses, at, other) + MassAt(more, at, other)
  {
    if more != [] {
      var front, last := more[..|more| - 1], more[|more| - 1];
      SumsOfAddedAll(masses, front, other, at);
      SumsOfAdded(AddedAll(masses, front), last.key, last.mass, other, at);
    }
  }

  lemma {:induction false} AddedAllConcatenation(masses: Masses, a: Masses, b: Masses)
    ensures AddedAll(masses, a + b) == AddedAll(AddedAll(masses, a), b)
  {
    if b == [] {
      assert a + b == a;
    } else {
      assert (a + b)[..|a + b| - 1] == a + b[..|b| - 1];
      AddedAllConcatenation(masses, a, b[..|b| - 1]);
    }
  }

  // ---------------------------------------------------------------------------------------
  // The Cartesian product
  // ---------------------------------------------------------------------------------------

  /** The proofs about products of sums use only that multiplication distributes. */
  type Product = (real, real) -> real

  ghost predicate AddsLeft(times: Product, x: real, y: real, z: real) {
    times(x + y, z) == times(x, z) + times(y, z)
  }

  ghost predicate AddsRight(times: Product, x: real, y: real, z: real) {
    times(x, y + z) == times(x, y) + times(x, z)
  }

  ghost predicate Bilinear(times: Product) {
    && (forall x, y, z :: AddsLeft(times, x, y, z))
    && (forall x, y, z :: AddsRight(times, x, y, z))
  }

  ghost predicate KeepsUnit(times: Product, x: real) {
    times(1.0, x) == times(x, 1.0) == x
  }

  ghost predicate Multiplies(times: Product) {
    Bilinear(times) && forall x :: KeepsUnit(times, x)
  }

  lemma {:induction false} Zeroes(times: Product, x: real)
    requires Bilinear(times)
    ensures times(x, 0.0) == times(0.0, x) == 0.0
  {
    assert AddsLeft(times, 0.0, 0.0, x) && AddsRight(times, x, 0.0, 0.0);
  }

  ghost const TIMES: Product := (x: real, y: real) => x * y

  lemma {:induction false} TimesMultiplies()
    ensures Multiplies(TIMES)
  {
  }

  ghost function Prefixed(times: Product, prefix: string, mass: real, tail: Masses): Masses {
    if tail == [] then []
    else
      var last := tail[|tail| - 1];
      Prefixed(times, prefix, mass, tail[..|tail| - 1]) + [Entry(prefix + last.key, times(mass, last.mass))]
  }

  ghost function Crossed(times: Product, node: Masses, tail: Masses): Masses {
    if node == [] then []
    else
      var last := node[|node| - 1];
      Crossed(times, node[..|node| - 1], tail) + Prefixed(times, last.key, last.mass, tail)
  }

  function Share(count: int, divisor: int): real
    requires divisor != 0
  {
    count as real / divisor as real
  }

  ghost function Shares(counts: Histogram, divisor: int): (r: Masses)
    requires divisor != 0
    ensures |r| == |counts|
  {
    seq(|counts|, i requires 0 <= i < |counts| => Entry(counts[i].outcome, Share(counts[i].count, divisor)))
  }

  /** A node's own distribution. */
  ghost function Distribution(counts: Histogram): Masses {
    Shares(counts, Divisor(counts))
  }

  /** One entry for each choice of an outcome at every node: the outcomes joined, their shares multiplied. */
  ghost function Outcomes(times: Product, nodes: seq<Histogram>): Masses {
    if nodes == [] then [Entry("", 1.0)]
    else Crossed(times, Distribution(nodes[0]), Outcomes(times, nodes[1..]))
  }

  ghost function Joint(nodes: seq<Histogram>): Masses {
    AddedAll([], Outcomes(TIMES, nodes))
  }

  lemma {:induction false} PrefixedTotal(times: Product, prefix: string, mass: real, tail: Masses)
    requires Bilinear(times)
    ensures Total(Prefixed(times, prefix, mass, tail)) == times(mass, Total(tail))
  {
    if tail == [] {
      Zeroes(times, mass);
    } else {
      var front, last := tail[..|tail| - 1], tail[|tail| - 1];
      PrefixedTotal(times, prefix, mass, front);
      assert AddsRight(times, mass, Total(front), last.mass);
    }
  }

  /** A part that lies behind the prefix. */
  lemma {:induction false} PrefixedBehind(
      times: Product, prefix: string, mass: real, tail: Masses, at: nat, part: string)
    requires Bilinear(times) && at >= |prefix|
    ensures MassAt(Prefixed(times, prefix, mass, tail), at, part) == times(mass, MassAt(tail, at - |prefix|, part))
  {
    Zeroes(times, mass);
    if tail != [] {
      var front, last := tail[..|tail| - 1], tail[|tail| - 1];
      PrefixedBehind(times, prefix, mass, front, at, part);
      ShowsBehind(prefix, last.key, at, part);
      assert AddsRight(times, mass, MassAt(front, at - |prefix|, part), last.mass);
    }
  }

  lemma {:induction false} ShowsBehind(prefix: string, key: string, at: nat, part: string)
    requires at >= |prefix|
    ensures Shows(prefix + key, at, part) <==> Shows(key, at - |prefix|, part)
  {
    var whole := prefix + key;
    if at + |part| <= |whole| {
      assert whole[at..at + |part|] == key[at - |prefix|..at - |prefix| + |part|];
    }
  }

  /** A part of the prefix's length at its place. */
  lemma {:induction false} PrefixedHere(times: Product, prefix: string, mass: real, tail: Masses, part: string)
    requires Bilinear(times) && |part| == |prefix|
    ensures MassAt(Prefixed(times, prefix, mass, tail), 0, part)
      == if part == prefix then times(mass, Total(tail)) else 0.0
  {
    Zeroes(times, mass);
    if tail != [] {
      var front, last := tail[..|tail| - 1], tail[|tail| - 1];
      PrefixedHere(times, prefix, mass, front, part);
      assert (prefix + last.key)[..|part|] == prefix;
      assert AddsRight(times, mass, Total(front), last.mass);
    }
  }

  lemma {:induction false} SameParts(prefix: string, key: string, here: string, rest: string)
    requires |prefix| == |here|
    ensures prefix + key == here + rest <==> prefix == here && key == rest
  {
    if prefix + key == here + rest {
      assert (prefix + key)[..|prefix|] == prefix && (prefix + key)[|prefix|..] == key;
      assert (here + rest)[..|here|] == here && (here + rest)[|here|..] == rest;
    }
  }

  lemma {:induction false} PrefixedKey(
      times: Product, prefix: string, mass: real, tail: Masses, here: string, rest: string)
    requires Bilinear(times) && |prefix| == |here|
    ensures MassOf(Prefixed(times, prefix, mass, tail), here + rest)
      == if prefix == here then times(mass, MassOf(tail, rest)) else 0.0
  {
    Zeroes(times, mass);
    if tail != [] {
      var front, last := tail[..|tail| - 1], tail[|tail| - 1];
      PrefixedKey(times, prefix, mass, front, here, rest);
      SameParts(prefix, last.key, here, rest);
      assert AddsRight(times, mass, MassOf(front, rest), last.mass);
    }
  }

  lemma {:induction false} CrossedStep(times: Product, node: Masses, tail: Masses, part: string, at: nat)
    requires node != []
    ensures
      var front, last := node[..|node| - 1], node[|node| - 1];
      var before, more := Crossed(times, front, tail), Prefixed(times, last.key, last.mass, tail);
      var after := Crossed(times, node, tail);
      && Total(after) == Total(before) + Total(more)
      && MassOf(after, part) == MassOf(before, part) + MassOf(more, part)
      && MassAt(after, at, part) == MassAt(before, at, part) + MassAt(more, at, part)
  {
    var front, last := node[..|node| - 1], node[|node| - 1];
    SumsOfConcatenation(Crossed(times, front, tail), Prefixed(times, last.key, last.mass, tail), part, at);
  }

  lemma {:induction false} CrossedTotal(times: Product, node: Masses, tail: Masses)
    requires Bilinear(times)
    ensures Total(Crossed(times, node, tail)) == times(Total(node), Total(tail))
  {
    Zeroes(times, Total(tail));
    if node != [] {
      var front, last := node[..|node| - 1], node[|node| - 1];
      CrossedTotal(times, front, tail);
      PrefixedTotal(times, last.key, last.mass, tail);
      CrossedStep(times, node, tail, "", 0);
      assert AddsLeft(times, Total(front), last.mass, Total(tail));
    }
  }

  ghost predicate KeysHaveLength(masses: Masses, length: nat) {
    forall i :: 0 <= i < |masses| ==> |masses[i].key| == length
  }

  lemma {:induction false} CrossedHereStep(times: Product, node: Masses, tail: Masses, part: string)
    requires Bilinear(times) && node != [] && |node[|node| - 1].key| == |part|
    ensures
      var front, last := node[..|node| - 1], node[|node| - 1];
      MassAt(Crossed(times, node, tail), 0, part) == MassAt(Crossed(times, front, tail), 0, part)
        + if last.key == part then times(last.mass, Total(tail)) else 0.0
  {
    var last := node[|node| - 1];
    PrefixedHere(times, last.key, last.mass, tail, part);
    CrossedStep(times, node, tail, part, 0);
  }

  lemma {:induction false} CrossedHere(times: Product, node: Masses, tail: Masses, part: string)
    requires Bilinear(times) && KeysHaveLength(node, |part|)
    ensures MassAt(Crossed(times, node, tail), 0, part) == times(MassOf(node, part), Total(tail))
  {
    Zeroes(times, Total(tail));
    if node != [] {
      var front, last := node[..|node| - 1], node[|node| - 1];
      CrossedHere(times, front, tail, part);
      CrossedHereStep(times, node, tail, part);
      assert AddsLeft(times, MassOf(front, part), last.mass, Total(tail));
    }
  }

  lemma {:induction false} CrossedBehind(
      times: Product, node: Masses, tail: Masses, length: nat, at: nat, part: string)
    requires Bilinear(times) && KeysHaveLength(node, length) && at >= length
    ensures MassAt(Crossed(times, node, tail), at, part) == times(Total(node), MassAt(tail, at - length, part))
  {
    Zeroes(times, MassAt(tail, at - length, part));
    if node != [] {
      var front, last := node[..|node| - 1], node[|node| - 1];
      CrossedBehind(times, front, tail, length, at, part);
      PrefixedBehind(times, last.key, last.mass, tail, at, part);
      CrossedStep(times, node, tail, part, at);
      assert AddsLeft(times, Total(front), last.mass, MassAt(tail, at - length, part));
    }
  }

  lemma {:induction false} CrossedKeyStep(times: Product, node: Masses, tail: Masses, here: string, rest: string)
    requires Bilinear(times) && node != [] && |node[|node| - 1].key| == |here|
    ensures
      var front, last := node[..|node| - 1], node[|node| - 1];
      MassOf(Crossed(times, node, tail), here + rest) == MassOf(Crossed(times, front, tail), here + rest)
      + if last.key == here then times(last.mass, MassOf(tail, rest)) else 0.0
  {
    var last := node[|node| - 1];
    PrefixedKey(times, last.key, last.mass, tail, here, rest);
    CrossedStep(times, node, tail, here + rest, 0);
  }

  lemma {:induction false} CrossedKey(times: Product, node: Masses, tail: Masses, here: string, rest: string)
    requires Bilinear(times) && KeysHaveLength(node, |here|)
    ensures MassOf(Crossed(times, node, tail), here + rest) == times(MassOf(node, here), MassOf(tail, rest))
  {
    Zeroes(times, MassOf(tail, rest));
    if node != [] {
      var front, last := node[..|node| - 1], node[|node| - 1];
      CrossedKey(times, front, tail, here, rest);
      CrossedKeyStep(times, node, tail, here, rest);
      assert AddsLeft(times, MassOf(front, here), last.mass, MassOf(tail, rest));
    }
  }

  // ---------------------------------------------------------------------------------------
  // Distributions of single nodes
  // ---------------------------------------------------------------------------------------

  ghost function CountOf(counts: Histogram, outcome: string): int {
    if counts == [] then 0
    else
      var last := counts[|counts| - 1];
      CountOf(counts[..|counts| - 1], outcome) + if last.outcome == outcome then last.count else 0
  }

  lemma {:induction false} ShareOfSum(x: int, y: int, divisor: int)
    requires divisor != 0
    ensures Share(x + y, divisor) == Share(x, divisor) + Share(y, divisor)
    ensures Share(0, divisor) == 0.0 && Share(divisor, divisor) == 1.0
  {
  }

  lemma {:induction false} SharesTotal(counts: Histogram, divisor: int, outcome: string)
    requires divisor != 0
    ensures Total(Shares(counts, divisor)) == Share(TotalCount(counts), divisor)
    ensures MassOf(Shares(counts, divisor), outcome) == Share(CountOf(counts, outcome), divisor)
  {
    if counts == [] {
      ShareOfSum(0, 0, divisor);
    } else {
      var front, last := counts[..|counts| - 1], counts[|counts| - 1];
      SharesTotal(front, divisor, outcome);
      assert Shares(counts, divisor)[..|front|] == Shares(front, divisor);
      ShareOfSum(TotalCount(front), last.count, divisor);
      ShareOfSum(CountOf(front, outcome), last.count, divisor);
    }
  }

  /** What a node says of an outcome: its share of the node's counts. */
  ghost function Probability(counts: Histogram, outcome: string): real {
    Share(CountOf(counts, outcome), Divisor(counts))
  }

  /** The share of an outcome: its counts over all counts, or over one if they sum to zero. */
  lemma {:induction false} ProbabilityIsRatio(counts: Histogram, outcome: string)
    ensures TotalCount(counts) != 0 ==>
      Probability(counts, outcome) == CountOf(counts, outcome) as real / TotalCount(counts) as real
    ensures TotalCount(counts) == 0 ==> Probability(counts, outcome) == CountOf(counts, outcome) as real
  {
  }

  lemma {:induction false} DistributionSums(counts: Histogram, outcome: string)
    ensures Total(Distribution(counts)) == if TotalCount(counts) == 0 then 0.0 else 1.0
    ensures MassOf(Distribution(counts), outcome) == Probability(counts, outcome)
  {
    SharesTotal(counts, Divisor(counts), outcome);
    ShareOfSum(0, 0, Divisor(counts));
  }

  // ---------------------------------------------------------------------------------------
  // Probability is conserved
  // ---------------------------------------------------------------------------------------

  ghost predicate AllCounted(nodes: seq<Histogram>) {
    forall i :: 0 <= i < |nodes| ==> TotalCount(nodes[i]) != 0
  }

  lemma {:induction false} AllCountedTail(nodes: seq<Histogram>)
    requires nodes != []
    ensures AllCounted(nodes) <==> TotalCount(nodes[0]) != 0 && AllCounted(nodes[1..])
  {
    assert forall i :: 1 <= i < |nodes| ==> nodes[i] == nodes[1..][i - 1];
    assert forall i :: 0 <= i < |nodes| - 1 ==> nodes[1..][i] == nodes[i + 1];
  }

  lemma {:induction false} OutcomesTotal(times: Product, nodes: seq<Histogram>)
    requires Multiplies(times)
    ensures Total(Outcomes(times, nodes)) == if AllCounted(nodes) then 1.0 else 0.0
  {
    if nodes == [] {
      assert [Entry("", 1.0)][..0] == [];
    } else {
      OutcomesTotal(times, nodes[1..]);
      CrossedTotal(times, Distribution(nodes[0]), Outcomes(times, nodes[1..]));
      DistributionSums(nodes[0], "");
      Zeroes(times, Total(Distribution(nodes[0])));
      Zeroes(times, Total(Outcomes(times, nodes[1..])));
      assert KeepsUnit(times, 1.0);
      AllCountedTail(nodes);
    }
  }

  /** The joint masses sum to one exactly when no node's counts sum to zero; otherwise they sum to zero. */
  lemma {:induction false} ProbabilityIsConserved(nodes: seq<Histogram>)
    ensures Total(Joint(nodes)) == if AllCounted(nodes) then 1.0 else 0.0
  {
    TimesMultiplies();
    OutcomesTotal(TIMES, nodes);
    SumsOfAddedAll([], Outcomes(TIMES, nodes), "", 0);
  }

  // ---------------------------------------------------------------------------------------
  // Outcomes of one length per node
  // ---------------------------------------------------------------------------------------

  ghost predicate HasLength(counts: Histogram, length: nat) {
    forall i :: 0 <= i < |counts| ==> |counts[i].outcome| == length
  }

  ghost predicate FixedLengths(nodes: seq<Histogram>, lengths: seq<nat>) {
    |lengths| == |nodes| && forall i :: 0 <= i < |nodes| ==> HasLength(nodes[i], lengths[i])
  }

  lemma {:induction false} FixedLengthsTail(nodes: seq<Histogram>, lengths: seq<nat>)
    requires FixedLengths(nodes, lengths) && nodes != []
    ensures FixedLengths(nodes[1..], lengths[1..]) && KeysHaveLength(Distribution(nodes[0]), lengths[0])
  {
    assert HasLength(nodes[0], lengths[0]);
    forall i | 0 <= i < |nodes| - 1
      ensures HasLength(nodes[1..][i], lengths[1..][i])
    {
      assert HasLength(nodes[i + 1], lengths[i + 1]);
    }
  }

  /** Where the part of node i starts in a joint outcome. */
  ghost function Offset(lengths: seq<nat>, i: nat): nat
    requires i <= |lengths|
  {
    if i == 0 then 0 else lengths[0] + Offset(lengths[1..], i - 1)
  }

  lemma {:induction false} FirstMarginal(times: Product, nodes: seq<Histogram>, part: string)
    requires Multiplies(times) && AllCounted(nodes) && nodes != []
    requires KeysHaveLength(Distribution(nodes[0]), |part|)
    ensures MassAt(Outcomes(times, nodes), 0, part) == Probability(nodes[0], part)
  {
    AllCountedTail(nodes);
    CrossedHere(times, Distribution(nodes[0]), Outcomes(times, nodes[1..]), part);
    OutcomesTotal(times, nodes[1..]);
    DistributionSums(nodes[0], part);
    assert KeepsUnit(times, Probability(nodes[0], part));
  }

  lemma {:induction false} LaterMarginal(
      times: Product, nodes: seq<Histogram>, length: nat, at: nat, part: string, share: real)
    requires Multiplies(times) && AllCounted(nodes) && nodes != [] && at >= length
    requires KeysHaveLength(Distribution(nodes[0]), length)
    requires MassAt(Outcomes(times, nodes[1..]), at - length, part) == share
    ensures MassAt(Outcomes(times, nodes), at, part) == share
  {
    CrossedBehind(times, Distribution(nodes[0]), Outcomes(times, nodes[1..]), length, at, part);
    DistributionSums(nodes[0], part);
    assert KeepsUnit(times, share);
  }

  lemma {:induction false} OutcomesMarginal(
      times: Product, nodes: seq<Histogram>, lengths: seq<nat>, i: nat, part: string)
    requires Multiplies(times)
    requires FixedLengths(nodes, lengths) && AllCounted(nodes) && i < |nodes| && |part| == lengths[i]
    ensures MassAt(Outcomes(times, nodes), Offset(lengths, i), part) == Probability(nodes[i], part)
  {
    FixedLengthsTail(nodes, lengths);
    if i == 0 {
      FirstMarginal(times, nodes, part);
    } else {
      AllCountedTail(nodes);
      OutcomesMarginal(times, nodes[1..], lengths[1..], i - 1, part);
      LaterMarginal(times, nodes, lengths[0], Offset(lengths, i), part, Probability(nodes[i], part));
    }
  }

  /** Summing the joint distribution over the other nodes gives back each node's own. */
  lemma {:induction false} MarginalsAreTheNodes(nodes: seq<Histogram>, lengths: seq<nat>, i: nat, part: string)
    requires FixedLengths(nodes, lengths) && AllCounted(nodes) && i < |nodes| && |part| == lengths[i]
    ensures MassAt(Joint(nodes), Offset(lengths, i), part) == Probability(nodes[i], part)
  {
    TimesMultiplies();
    OutcomesMarginal(TIMES, nodes, lengths, i, part);
    SumsOfAddedAll([], Outcomes(TIMES, nodes), part, Offset(lengths, i));
  }

  ghost predicate Chooses(choice: seq<string>, lengths: seq<nat>) {
    |choice| == |lengths| && forall i :: 0 <= i < |choice| ==> |choice[i]| == lengths[i]
  }

  function Joined(choice: seq<string>): string {
    if choice == [] then "" else choice[0] + Joined(choice[1..])
  }

  ghost function JointProbability(times: Product, nodes: seq<Histogram>, choice: seq<string>): real
    requires |choice| == |nodes|
  {
    if nodes == [] then 1.0
    else times(Probability(nodes[0], choice[0]), JointProbability(times, nodes[1..], choice[1..]))
  }

  lemma {:induction false} FirstFactor(times: Product, nodes: seq<Histogram>, choice: seq<string>)
    requires Bilinear(times) && nodes != [] && |choice| == |nodes|
    requires KeysHaveLength(Distribution(nodes[0]), |choice[0]|)
    requires MassOf(Outcomes(times, nodes[1..]), Joined(choice[1..]))
      == JointProbability(times, nodes[1..], choice[1..])
    ensures MassOf(Outcomes(times, nodes), Joined(choice)) == JointProbability(times, nodes, choice)
  {
    CrossedKey(
      times, Distribution(nodes[0]), Outcomes(times, nodes[1..]), choice[0], Joined(choice[1..]));
    DistributionSums(nodes[0], choice[0]);
  }

  lemma {:induction false} OutcomesProduct(
      times: Product, nodes: seq<Histogram>, lengths: seq<nat>, choice: seq<string>)
    requires Bilinear(times)
    requires FixedLengths(nodes, lengths) && Chooses(choice, lengths)
    ensures MassOf(Outcomes(times, nodes), Joined(choice)) == JointProbability(times, nodes, choice)
  {
    if nodes == [] {
      assert [Entry("", 1.0)][..0] == [];
    } else {
      assert |choice[0]| == lengths[0] && Chooses(choice[1..], lengths[1..]);
      FixedLengthsTail(nodes, lengths);
      OutcomesProduct(times, nodes[1..], lengths[1..], choice[1..]);
      FirstFactor(times, nodes, choice);
    }
  }

  /** What is stored under a joint outcome is the product of its parts' probabilities: nothing else was added
      to it. */
  lemma {:induction false} JointIsProduct(nodes: seq<Histogram>, lengths: seq<nat>, choice: seq<string>)
    requires FixedLengths(nodes, lengths) && Chooses(choice, lengths)
    ensures MassOf(Joint(nodes), Joined(choice)) == JointProbability(TIMES, nodes, choice)
    ensures forall i :: 0 <= i < |Joint(nodes)| && Joint(nodes)[i].key == Joined(choice) ==>
      Joint(nodes)[i].mass == JointProbability(TIMES, nodes, choice)
  {
    AddedAllKeepsUnique([], Outcomes(TIMES, nodes));
    forall i | 0 <= i < |Joint(nodes)|
      ensures MassOf(Joint(nodes), Joint(nodes)[i].key) == Joint(nodes)[i].mass
    {
      MassIsStored(Joint(nodes), i);
    }
    TimesMultiplies();
    OutcomesProduct(TIMES, nodes, lengths, choice);
    SumsOfAddedAll([], Outcomes(TIMES, nodes), Joined(choice), 0);
  }

  lemma {:induction false} JoiningIsInjective(lengths: seq<nat>, a: seq<string>, b: seq<string>)
    requires Chooses(a, lengths) && Chooses(b, lengths) && Joined(a) == Joined(b)
    ensures a == b
  {
    if a != [] {
      SameParts(a[0], Joined(a[1..]), b[0], Joined(b[1..]));
      JoiningIsInjective(lengths[1..], a[1..], b[1..]);
      assert a == [a[0]] + a[1..] && b == [b[0]] + b[1..];
    }
  }
}
