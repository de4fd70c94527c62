/** The bounded memory of nonces by which a node rejects replayed events, in every run. */
module ReplayWindow {
  import opened FederationNode
  import opened FederationNetwork

  /** The nonces of the events that a node has accepted, in order. */
  ghost function AcceptedNonces(x: Execution, t: nat, i: NodeId): seq<string>
    requires |x.nets| == |x.trace| + 1 && t <= |x.trace|
  {
    if t == 0 then []
    else if x.AcceptsAt(t - 1) && x.trace[t - 1].node == i then
      AcceptedNonces(x, t - 1, i) + [x.nets[t - 1].created[x.trace[t - 1].index].nonce]
    else AcceptedNonces(x, t - 1, i)
  }

  lemma {:induction false} LastOfLast<T>(s: seq<T>, a: T, n: nat)
    ensures LastN(LastN(s, n) + [a], n) == LastN(s + [a], n)
  {
  }

  /** What a node remembers are the last nonces it accepted, up to the cap. */
  lemma {:induction false} WindowIsLastAccepted(x: Execution, t: nat, i: NodeId)
    requires x.Valid() && t <= |x.trace| && i in x.nets[t].nodes
    ensures x.nets[t].nodes[i].recent == LastN(AcceptedNonces(x, t, i), x.maxSeen)
  {
    if t > 0 {
      var net, step := x.nets[t - 1], x.trace[t - 1];
      assert x.Follows(t - 1);
      if step.node != i {
        x.OtherNodesRest(t - 1, i);
        WindowIsLastAccepted(x, t - 1, i);
      } else if step.node in net.nodes {
        WindowIsLastAccepted(x, t - 1, i);
        ActingNode(x.maxSeen, net, step);
        EffectOnClock(x.maxSeen, net, step);
        if x.AcceptsAt(t - 1) {
          LastOfLast(AcceptedNonces(x, t - 1, i), net.created[step.index].nonce, x.maxSeen);
        }
      }
    }
  }

  /** An event that arrives is accepted exactly if its nonce is not among the last accepted ones. */
  lemma {:induction false} AcceptedUnlessRecent(x: Execution, t: nat)
    requires x.Valid() && t < |x.trace| && x.trace[t].Deliver?
    requires x.trace[t].node in x.nets[t].nodes && x.trace[t].index < |x.nets[t].created|
    ensures x.AcceptsAt(t) <==>
      x.nets[t].created[x.trace[t].index].nonce
        !in LastN(AcceptedNonces(x, t, x.trace[t].node), x.maxSeen)
  {
    WindowIsLastAccepted(x, t, x.trace[t].node);
  }

  /** The step at which a node accepted its b-th nonce. */
  lemma {:induction false} AcceptanceStep(x: Execution, t: nat, i: NodeId, b: nat) returns (s: nat)
    requires x.Valid() && t <= |x.trace| && b < |AcceptedNonces(x, t, i)|
    ensures s < t && x.AcceptsAt(s) && x.trace[s].node == i
    ensures AcceptedNonces(x, s, i) == AcceptedNonces(x, t, i)[..b]
    ensures AcceptedNonces(x, t, i)[b] == x.nets[s].created[x.trace[s].index].nonce
    decreases t
  {
    if b < |AcceptedNonces(x, t - 1, i)| {
      s := AcceptanceStep(x, t - 1, i, b);
      assert AcceptedNonces(x, t - 1, i)[..b] == AcceptedNonces(x, t, i)[..b];
    } else {
      s := t - 1;
    }
  }

  lemma {:induction false} NotAmongPredecessors(x: Execution, t: nat, i: NodeId, b: nat)
    requires x.Valid() && t <= |x.trace| && b < |AcceptedNonces(x, t, i)|
    ensures AcceptedNonces(x, t, i)[b] !in LastN(AcceptedNonces(x, t, i)[..b], x.maxSeen)
  {
    var s := AcceptanceStep(x, t, i, b);
    AcceptedUnlessRecent(x, s);
  }

  lemma {:induction false} RecentEnough<T>(s: seq<T>, n: nat, a: nat)
    requires a < |s|
    ensures |s| <= a + n ==> s[a] in LastN(s, n)
  {
    if |s| <= a + n {
      var window := LastN(s, n);
      assert window[|window| - (|s| - a)] == s[a];
    }
  }

  /** Between two acceptances of one nonce lie at least as many acceptances as the cap allows to be
      remembered; the last of these are pairwise distinct and different from the nonce. */
  lemma {:induction false} ReplayNeedsFullWindow(x: Execution, t: nat, i: NodeId, a: nat, b: nat)
    requires x.Valid() && t <= |x.trace| && a < b < |AcceptedNonces(x, t, i)|
    requires AcceptedNonces(x, t, i)[a] == AcceptedNonces(x, t, i)[b]
    ensures a + x.maxSeen < b
    ensures NoRepeats(AcceptedNonces(x, t, i)[b - x.maxSeen..b])
    ensures AcceptedNonces(x, t, i)[b] !in AcceptedNonces(x, t, i)[b - x.maxSeen..b]
  {
    var accepted := AcceptedNonces(x, t, i);
    NotAmongPredecessors(x, t, i, b);
    RecentEnough(accepted[..b], x.maxSeen, a);
    assert LastN(accepted[..b], x.maxSeen) == accepted[b - x.maxSeen..b];
    WindowHasNoRepeats(x, t, i, b);
  }

  lemma {:induction false} WindowHasNoRepeats(x: Execution, t: nat, i: NodeId, b: nat)
    requires x.Valid() && t <= |x.trace| && b <= |AcceptedNonces(x, t, i)|
    ensures NoRepeats(LastN(AcceptedNonces(x, t, i)[..b], x.maxSeen))
  {
    var accepted := AcceptedNonces(x, t, i);
    var window := LastN(accepted[..b], x.maxSeen);
    var first := b - |window|;
    forall k, l | 0 <= k < l < |window|
      ensures window[k] != window[l]
    {
      NotAmongPredecessors(x, t, i, first + l);
      var before := LastN(accepted[..first + l], x.maxSeen);
      assert before[|before| - (l - k)] == accepted[first + k] == window[k];
    }
  }
}
