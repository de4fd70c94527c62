/** platform_capability_sdk.py's circuit breaker: what it lets through depends on the history alone. Clock
    readings enter as arguments. */
module CircuitBreaker {
  import opened Wrappers

  datatype CircuitState = CLOSED | OPEN | HALF_OPEN

  /** Reading the state and asking whether to allow a request are the same step. */
  datatype Call = Asked(now: real) | Succeeded | Failed(now: real)

  datatype Limits = Limits(threshold: int, timeout: real)

  datatype Circuit = Circuit(state: CircuitState, failures: int, lastFailure: real)

  const FRESH := Circuit(CLOSED, 0, 0.0)

  /** An open circuit becomes half-open when it is looked at late enough. */
  function Observed(limits: Limits, circuit: Circuit, now: real): Circuit {
    if circuit.state == OPEN && now - circuit.lastFailure >= limits.timeout then circuit.(state := HALF_OPEN)
    else circuit
  }

  function Step(limits: Limits, circuit: Circuit, call: Call): Circuit {
    match call
    case Asked(now) => Observed(limits, circuit, now)
    case Succeeded => Circuit(CLOSED, 0, circuit.lastFailure)
    case Failed(now) =>
      Circuit(
        if circuit.failures + 1 >= limits.threshold then OPEN else circuit.state, circuit.failures + 1, now)
  }

  ghost function After(limits: Limits, calls: seq<Call>): Circuit {
    if calls == [] then FRESH else Step(limits, After(limits, calls[..|calls| - 1]), calls[|calls| - 1])
  }

  // ---------------------------------------------------------------------------------------
  // Histories
  // ---------------------------------------------------------------------------------------

  /** The index after the last success. */
  ghost function Start(calls: seq<Call>): (s: nat)
    ensures s <= |calls| && (s > 0 ==> calls[s - 1] == Succeeded)
    ensures forall k :: s <= k < |calls| ==> calls[k] != Succeeded
  {
    if calls == [] || calls[|calls| - 1] == Succeeded then |calls| else Start(calls[..|calls| - 1])
  }

  /** The index of the last failure, or -1. */
  ghost function Last(calls: seq<Call>): (f: int)
    ensures -1 <= f < |calls| && (f >= 0 ==> calls[f].Failed?)
    ensures forall k :: f < k < |calls| ==> !calls[k].Failed?
  {
    if calls == [] || calls[|calls| - 1].Failed? then |calls| - 1 else Last(calls[..|calls| - 1])
  }

  /** How many of the calls from s on are failures. */
  ghost function FailuresFrom(calls: seq<Call>, s: nat): int {
    if |calls| <= s then 0
    else FailuresFrom(calls[..|calls| - 1], s) + if calls[|calls| - 1].Failed? then 1 else 0
  }

  /** There was a failure since the last success, and there were at least threshold. */
  ghost predicate Tripped(limits: Limits, calls: seq<Call>) {
    Start(calls) <= Last(calls) && FailuresFrom(calls, Start(calls)) >= limits.threshold
  }

  /** Nobody has looked at the circuit a timeout or more after the last failure. */
  ghost predicate Cold(limits: Limits, calls: seq<Call>) {
    forall k :: 0 <= Last(calls) < k < |calls| && calls[k].Asked? ==>
      calls[k].now - calls[Last(calls)].now < limits.timeout
  }

  ghost predicate Agrees(limits: Limits, circuit: Circuit, calls: seq<Call>) {
    && circuit.failures == FailuresFrom(calls, Start(calls))
    && (0 <= Last(calls) ==> circuit.lastFailure == calls[Last(calls)].now)
    && circuit.state
       == (if !Tripped(limits, calls) then CLOSED else if Cold(limits, calls) then OPEN else HALF_OPEN)
  }

  lemma {:induction false} SuffixAfterAllow(limits: Limits, calls: seq<Call>, now: real)
    ensures
      var calls' := calls + [Asked(now)];
      && Start(calls') == Start(calls) && Last(calls') == Last(calls)
      && FailuresFrom(calls', Start(calls)) == FailuresFrom(calls, Start(calls))
      && (Cold(limits, calls') <==>
        Cold(limits, calls) && (0 <= Last(calls) ==> now - calls[Last(calls)].now < limits.timeout))
  {
    var calls' := calls + [Asked(now)];
    assert calls'[..|calls|] == calls;
    assert calls'[|calls|].Asked?;
  }

  lemma {:induction false} SuffixAfterSuccess(limits: Limits, calls: seq<Call>)
    ensures
      var calls' := calls + [Succeeded];
      && Start(calls') == |calls'| && Last(calls') == Last(calls)
      && FailuresFrom(calls', |calls'|) == 0 && !Tripped(limits, calls')
  {
    var calls' := calls + [Succeeded];
    assert calls'[..|calls|] == calls && calls'[|calls|] == Succeeded;
  }

  lemma {:induction false} SuffixAfterFailure(limits: Limits, calls: seq<Call>, now: real)
    ensures
      var calls' := calls + [Failed(now)];
      && Start(calls') == Start(calls) && Last(calls') == |calls|
      && FailuresFrom(calls', Start(calls)) == FailuresFrom(calls, Start(calls)) + 1
      && Cold(limits, calls')
      && (Tripped(limits, calls') <==> FailuresFrom(calls, Start(calls)) + 1 >= limits.threshold)
      && (Tripped(limits, calls) ==> Tripped(limits, calls'))
  {
    var calls' := calls + [Failed(now)];
    assert calls'[..|calls|] == calls && calls'[|calls|] == Failed(now);
  }

  lemma {:induction false} AskedOnce(limits: Limits, circuit: Circuit, calls: seq<Call>, now: real)
    requires Agrees(limits, circuit, calls)
    ensures Agrees(limits, Observed(limits, circuit, now), calls + [Asked(now)])
  {
    SuffixAfterAllow(limits, calls, now);
    var calls' := calls + [Asked(now)];
    assert 0 <= Last(calls) ==> calls'[Last(calls)] == calls[Last(calls)];
    assert Tripped(limits, calls') <==> Tripped(limits, calls);
  }

  lemma {:induction false} SucceededOnce(limits: Limits, circuit: Circuit, calls: seq<Call>)
    requires Agrees(limits, circuit, calls)
    ensures Agrees(limits, Step(limits, circuit, Succeeded), calls + [Succeeded])
  {
    SuffixAfterSuccess(limits, calls);
    var calls' := calls + [Succeeded];
    assert 0 <= Last(calls) ==> calls'[Last(calls)] == calls[Last(calls)];
  }

  lemma {:induction false} FailedOnce(limits: Limits, circuit: Circuit, calls: seq<Call>, now: real)
    requires Agrees(limits, circuit, calls)
    ensures Agrees(limits, Step(limits, circuit, Failed(now)), calls + [Failed(now)])
  {
    SuffixAfterFailure(limits, calls, now);
    var calls' := calls + [Failed(now)];
    assert calls'[|calls|] == Failed(now);
  }

  lemma {:induction false} OneMoreCall(limits: Limits, circuit: Circuit, calls: seq<Call>, call: Call)
    requires Agrees(limits, circuit, calls)
    ensures Agrees(limits, Step(limits, circuit, call), calls + [call])
  {
    match call
    case Asked(now) => AskedOnce(limits, circuit, calls, now);
    case Succeeded => SucceededOnce(limits, circuit, calls);
    case Failed(now) => FailedOnce(limits, circuit, calls, now);
  }

  /** In every run the stored state is the one the history dictates, whatever the clock does. */
  lemma {:induction false} StateFollowsHistory(limits: Limits, calls: seq<Call>)
    ensures Agrees(limits, After(limits, calls), calls)
  {
    if calls != [] {
      var front, call := calls[..|calls| - 1], calls[|calls| - 1];
      StateFollowsHistory(limits, front);
      OneMoreCall(limits, After(limits, front), front, call);
      assert front + [call] == calls;
    }
  }

  ghost predicate Refuses(limits: Limits, calls: seq<Call>, now: real) {
    Observed(limits, After(limits, calls), now).state == OPEN
  }

  /** For any clock at all: a request is refused exactly when the circuit is tripped and no look at it since the
      last failure, this one included, was late enough. */
  lemma {:induction false} RefusesForAnyClock(limits: Limits, calls: seq<Call>, now: real)
    ensures Refuses(limits, calls, now) <==> Tripped(limits, calls) && Cold(limits, calls + [Asked(now)])
  {
    StateFollowsHistory(limits, calls);
    SuffixAfterAllow(limits, calls, now);
  }

  ghost predicate ClockNondecreasing(calls: seq<Call>) {
    forall i, j :: 0 <= i < j < |calls| && calls[i] != Succeeded && calls[j] != Succeeded ==>
      calls[i].now <= calls[j].now
  }

  /** With a clock that does not run backwards, a request is refused exactly when there were threshold failures,
      one at least, since the last success and the last of them is less than a timeout ago. */
  lemma {:induction false} RefusesExactly(limits: Limits, calls: seq<Call>, now: real)
    requires ClockNondecreasing(calls + [Asked(now)])
    ensures Refuses(limits, calls, now) <==>
      Tripped(limits, calls) && now - calls[Last(calls)].now < limits.timeout
  {
    var calls' := calls + [Asked(now)];
    assert calls'[..|calls|] == calls && calls'[|calls|] == Asked(now);
    StateFollowsHistory(limits, calls);
    if 0 <= Last(calls) && now - calls[Last(calls)].now < limits.timeout {
      forall k | Last(calls) < k < |calls| && calls[k].Asked?
        ensures calls[k].now - calls[Last(calls)].now < limits.timeout
      {
        assert calls'[k] == calls[k] && calls'[k].now <= calls'[|calls|].now;
      }
      assert Cold(limits, calls);
    }
  }

  /** After half-open one failure is enough: it reopens the circuit for a whole timeout. */
  lemma {:induction false} OneFailureReopens(limits: Limits, calls: seq<Call>, failedAt: real, now: real)
    requires After(limits, calls).state == HALF_OPEN
    ensures Refuses(limits, calls + [Failed(failedAt)], now) <==> now - failedAt < limits.timeout
  {
    StateFollowsHistory(limits, calls);
    var calls' := calls + [Failed(failedAt)];
    assert calls'[..|calls|] == calls;
  }

  /** A request passes although the last of enough failures is less than a timeout ago exactly if somebody has
      already looked at the circuit a timeout or more after it. */
  lemma {:induction false} ProbesEarlyExactly(limits: Limits, calls: seq<Call>, now: real)
    requires Tripped(limits, calls) && now - calls[Last(calls)].now < limits.timeout
    ensures !Refuses(limits, calls, now) <==>
      exists k :: Last(calls) < k < |calls| && calls[k].Asked?
        && calls[k].now - calls[Last(calls)].now >= limits.timeout
  {
    RefusesForAnyClock(limits, calls, now);
    SuffixAfterAllow(limits, calls, now);
  }

  /** If the clock runs backwards, a circuit that was seen half-open lets requests through early: threshold 1,
      timeout 10, failure at 0, one look at 10 and a second at 5. */
  lemma {:induction false} BackwardClockProbesEarly()
    ensures
      var limits, calls := Limits(1, 10.0), [Failed(0.0), Asked(10.0)];
      && !Refuses(limits, calls, 5.0)
      && Tripped(limits, calls) && 5.0 - calls[Last(calls)].now < limits.timeout
  {
    var limits, calls := Limits(1, 10.0), [Failed(0.0), Asked(10.0)];
    assert calls[..1] == [Failed(0.0)] && calls[..1][..0] == [];
    assert After(limits, calls[..1]) == Circuit(OPEN, 1, 0.0);
    StateFollowsHistory(limits, calls);
    assert Last(calls) == 0 && Start(calls) == 0;
  }

  // ---------------------------------------------------------------------------------------
  // The breaker
  // ---------------------------------------------------------------------------------------

  class Breaker {
    const limits: Limits
    var state: CircuitState
    var failureCount: int
    var lastFailureTime: real
    ghost var calls: seq<Call>

    ghost predicate Valid()
      reads this
    {
      Circuit(state, failureCount, lastFailureTime) == After(limits, calls)
    }

    /** A threshold or timeout of None or zero means the configured one. */
    constructor (threshold: Option<int>, timeout: Option<real>, configured: Limits)
      ensures Valid() && calls == []
      ensures limits.threshold == if threshold in {None, Some(0)} then configured.threshold else threshold.value
      ensures limits.timeout == if timeout in {None, Some(0.0)} then configured.timeout else timeout.value
    {
      limits := Limits(
        if threshold.Some? && threshold.value != 0 then threshold.value else configured.threshold,
        if timeout.Some? && timeout.value != 0.0 then timeout.value else configured.timeout);
      state, failureCount, lastFailureTime := CLOSED, 0, 0.0;
      calls := [];
    }

    method State(now: real) returns (seen: CircuitState)
      requires Valid()
      modifies this
      ensures Valid() && calls == old(calls) + [Asked(now)] && seen == state
      ensures seen == OPEN <==> Refuses(limits, old(calls), now)
    {
      if state == OPEN {
        if now - lastFailureTime >= limits.timeout {
          state := HALF_OPEN;
        }
      }
      calls := calls + [Asked(now)];
      assert calls[..|calls| - 1] == old(calls);
      seen := state;
    }

    method AllowRequest(now: real) returns (allowed: bool)
      requires Valid()
      modifies this
      ensures Valid() && calls == old(calls) + [Asked(now)]
      ensures allowed <==> !Refuses(limits, old(calls), now)
      ensures ClockNondecreasing(calls) ==>
        (allowed <==> (
          !Tripped(limits, old(calls)) || now - old(calls)[Last(old(calls))].now >= limits.timeout))
    {
      var seen := State(now);
      allowed := seen in {CLOSED, HALF_OPEN};
      if ClockNondecreasing(calls) {
        RefusesExactly(limits, old(calls), now);
      }
    }

    method RecordSuccess()
      requires Valid()
      modifies this
      ensures Valid() && calls == old(calls) + [Succeeded] && state == CLOSED
    {
      failureCount := 0;
      state := CLOSED;
      calls := calls + [Succeeded];
      assert calls[..|calls| - 1] == old(calls);
    }

    method RecordFailure(now: real)
      requires Valid()
      modifies this
      ensures Valid() && calls == old(calls) + [Failed(now)]
      ensures old(state) == HALF_OPEN ==> state == OPEN
    {
      StateFollowsHistory(limits, calls);
      failureCount := failureCount + 1;
      lastFailureTime := now;
      if failureCount >= limits.threshold {
        state := OPEN;
      }
      calls := calls + [Failed(now)];
      assert calls[..|calls| - 1] == old(calls);
    }
  }
}
