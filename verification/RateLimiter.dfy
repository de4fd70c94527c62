/** gateway.py's token bucket (hybrid_gateway.py has the same code): an exact account of what it lets through.
    Clock readings are reals and enter as arguments. Runs are described with the clock measured in tokens:
    reading times the refill rate. */
module RateLimiter {
  function Min(x: real, y: real): real {
    if y < x then y else x
  }

  // ---------------------------------------------------------------------------------------
  // Runs: meter[0] is the creation time, meter[k] the time of the k-th call
  // ---------------------------------------------------------------------------------------

  /** The tokens that the last call finds after refilling; creation finds a full bucket. */
  ghost function Found(capacity: real, meter: seq<real>): real
    requires meter != []
    decreases |meter|, 0
  {
    var last := |meter| - 1;
    if last == 0 then capacity
    else Min(capacity, Left(capacity, meter[..last]) + (meter[last] - meter[last - 1]))
  }

  ghost function Left(capacity: real, meter: seq<real>): real
    requires meter != []
    decreases |meter|, 1
  {
    if |meter| > 1 && Found(capacity, meter) >= 1.0 then Found(capacity, meter) - 1.0 else Found(capacity, meter)
  }

  ghost function FoundAt(capacity: real, meter: seq<real>, k: nat): real
    requires k < |meter|
  {
    Found(capacity, meter[..k + 1])
  }

  /** The k-th call is allowed. */
  ghost predicate Granted(capacity: real, meter: seq<real>, k: nat)
    requires k < |meter|
  {
    k > 0 && FoundAt(capacity, meter, k) >= 1.0
  }

  /** How many of the calls first..last-1 are allowed. */
  ghost function Grants(capacity: real, meter: seq<real>, first: nat, last: nat): int
    requires last <= |meter|
    decreases last
  {
    if first >= last then 0
    else Grants(capacity, meter, first, last - 1) + if Granted(capacity, meter, last - 1) then 1 else 0
  }

  /** What the window that opens at call i still has to give at call j. */
  ghost function Credit(capacity: real, meter: seq<real>, i: nat, j: nat): real
    requires i <= j < |meter|
  {
    capacity + (meter[j] - meter[i]) - Grants(capacity, meter, i, j) as real
  }

  lemma {:induction false} NextFound(capacity: real, meter: seq<real>, j: nat)
    requires j + 1 < |meter|
    ensures FoundAt(capacity, meter, j + 1) == Min(
      capacity,
      FoundAt(capacity, meter, j) - (if Granted(capacity, meter, j) then 1.0 else 0.0) + (meter[j + 1] - meter[j]))
  {
    var upTo := meter[..j + 2];
    assert upTo[..j + 1] == meter[..j + 1];
    assert Found(capacity, upTo) == Min(capacity, Left(capacity, upTo[..j + 1]) + (upTo[j + 1] - upTo[j]));
  }

  /** The tokens a call finds are the least credit of any window that ends there. */
  lemma {:induction false} FoundIsLeastCredit(capacity: real, meter: seq<real>, j: nat)
    requires j < |meter|
    ensures forall i :: 0 <= i <= j ==> FoundAt(capacity, meter, j) <= Credit(capacity, meter, i, j)
    ensures exists i :: 0 <= i <= j && FoundAt(capacity, meter, j) == Credit(capacity, meter, i, j)
  {
    assert Credit(capacity, meter, j, j) == capacity;
    if j > 0 {
      FoundIsLeastCredit(capacity, meter, j - 1);
      NextFound(capacity, meter, j - 1);
      forall i | 0 <= i < j
        ensures Credit(capacity, meter, i, j) == Credit(capacity, meter, i, j - 1) + (meter[j] - meter[j - 1])
          - if Granted(capacity, meter, j - 1) then 1.0 else 0.0
      {
      }
      var i :| 0 <= i <= j - 1 && FoundAt(capacity, meter, j - 1) == Credit(capacity, meter, i, j - 1);
      assert FoundAt(capacity, meter, j) == Credit(capacity, meter, j, j)
        || FoundAt(capacity, meter, j) == Credit(capacity, meter, i, j);
    } else {
      assert meter[..1] == [meter[0]];
    }
  }

  lemma {:induction false} GrantsOfPrefix(capacity: real, meter: seq<real>, first: nat, last: nat, n: nat)
    requires last <= n <= |meter|
    ensures Grants(capacity, meter[..n], first, last) == Grants(capacity, meter, first, last)
    decreases last
  {
    if first < last {
      assert meter[..n][..last] == meter[..last];
      GrantsOfPrefix(capacity, meter, first, last - 1, n);
    }
  }

  // ---------------------------------------------------------------------------------------
  // Windows of real time
  // ---------------------------------------------------------------------------------------

  function Rate(perMinute: int): real {
    perMinute as real / 60.0
  }

  function InTokens(rate: real, time: real): real {
    rate * time
  }

  ghost function Metered(perMinute: int, times: seq<real>): (meter: seq<real>)
    ensures |meter| == |times|
  {
    seq(|times|, k requires 0 <= k < |times| => InTokens(Rate(perMinute), times[k]))
  }

  lemma {:induction false} Refill(rate: real, start: real, end: real)
    ensures rate * (end - start) == (end - start) * rate == InTokens(rate, end) - InTokens(rate, start)
  {
  }

  ghost function Allowed(perMinute: int, times: seq<real>, first: nat, last: nat): int
    requires last <= |times|
  {
    Grants(perMinute as real, Metered(perMinute, times), first, last)
  }

  ghost predicate IsAllowed(perMinute: int, times: seq<real>, k: nat)
    requires k < |times|
  {
    Granted(perMinute as real, Metered(perMinute, times), k)
  }

  /** The window from call i to call j may give so many calls: the capacity, and per minute as much again. */
  ghost predicate Within(perMinute: int, times: seq<real>, i: nat, j: nat, calls: int)
    requires i <= j < |times|
  {
    60.0 * calls as real <= 60.0 * perMinute as real + perMinute as real * (times[j] - times[i])
  }

  /** One more call at j fits in every window that ends there, the empty one included. */
  ghost predicate FitsEveryWindow(perMinute: int, times: seq<real>, j: nat)
    requires j < |times|
  {
    forall i :: 0 <= i <= j ==> Within(perMinute, times, i, j, Allowed(perMinute, times, i, j) + 1)
  }

  lemma {:induction false} PerMinute(perMinute: real, length: real)
    ensures 60.0 * ((perMinute / 60.0) * length) == perMinute * length
  {
  }

  /** A credit of so many tokens is room for so many calls. */
  lemma {:induction false} CreditIsRoom(perMinute: int, times: seq<real>, i: nat, j: nat, more: int)
    requires i <= j < |times|
    ensures Credit(perMinute as real, Metered(perMinute, times), i, j) >= more as real
      <==> Within(perMinute, times, i, j, Allowed(perMinute, times, i, j) + more)
  {
    var length := times[j] - times[i];
    Refill(Rate(perMinute), times[i], times[j]);
    PerMinute(perMinute as real, length);
    var capacity, meter, spent := perMinute as real, Metered(perMinute, times), Allowed(perMinute, times, i, j);
    assert Credit(capacity, meter, i, j) == capacity + Rate(perMinute) * length - spent as real;
    assert (spent + more) as real == spent as real + more as real;
  }

  /** No call is allowed that would overfill a window, and none is refused otherwise. This needs nothing of
      the clock. */
  lemma {:induction false} AllowedExactly(perMinute: int, times: seq<real>, j: nat)
    requires 0 < j < |times|
    ensures IsAllowed(perMinute, times, j) <==> FitsEveryWindow(perMinute, times, j)
  {
    var capacity, meter := perMinute as real, Metered(perMinute, times);
    FoundIsLeastCredit(capacity, meter, j);
    forall i: nat | i <= j
      ensures Credit(capacity, meter, i, j) >= 1.0
        <==> Within(perMinute, times, i, j, Allowed(perMinute, times, i, j) + 1)
    {
      CreditIsRoom(perMinute, times, i, j, 1);
    }
  }

  ghost predicate Nondecreasing(times: seq<real>) {
    forall i, j :: 0 <= i <= j < |times| ==> times[i] <= times[j]
  }

  lemma {:induction false} Scaled(n: real, x: real, y: real)
    requires n >= 0.0 && x <= y
    ensures n * x <= n * y
  {
    assert n * y - n * x == n * (y - x);
  }

  lemma {:induction false} RoomGrows(perMinute: int, times: seq<real>, i: nat, j: nat, calls: int)
    requires perMinute >= 0 && Nondecreasing(times) && i < j < |times|
    requires Within(perMinute, times, i, j - 1, calls)
    ensures Within(perMinute, times, i, j, calls)
  {
    Scaled(perMinute as real, times[j - 1] - times[i], times[j] - times[i]);
  }

  /** With a clock that does not run backwards, no window ever gives more than that. */
  lemma {:induction false} NoWindowExceeds(perMinute: int, times: seq<real>, i: nat, j: nat)
    requires perMinute >= 0 && Nondecreasing(times) && i <= j < |times|
    ensures Within(perMinute, times, i, j, Allowed(perMinute, times, i, j + 1))
    decreases j
  {
    if IsAllowed(perMinute, times, j) {
      AllowedExactly(perMinute, times, j);
      assert Within(perMinute, times, i, j, Allowed(perMinute, times, i, j) + 1);
      assert Allowed(perMinute, times, i, j + 1) == Allowed(perMinute, times, i, j) + 1;
    } else if i < j {
      NoWindowExceeds(perMinute, times, i, j - 1);
      RoomGrows(perMinute, times, i, j, Allowed(perMinute, times, i, j));
    } else {
      CreditIsRoom(perMinute, times, j, j, 0);
    }
  }

  lemma {:induction false} TwiceAsMany(calls: int, perMinute: int, length: real)
    requires 60.0 * calls as real <= 60.0 * perMinute as real + perMinute as real * length
    requires perMinute >= 0 && length <= 60.0
    ensures calls <= 2 * perMinute
  {
    Scaled(perMinute as real, length, 60.0);
    assert (60 * calls) as real <= (120 * perMinute) as real;
  }

  /** In no minute are more than twice as many calls allowed as the limit names. */
  lemma {:induction false} NoMinuteExceedsTwice(perMinute: int, times: seq<real>, i: nat, j: nat)
    requires perMinute >= 0 && Nondecreasing(times) && i <= j < |times| && times[j] - times[i] <= 60.0
    ensures Allowed(perMinute, times, i, j + 1) <= 2 * perMinute
  {
    NoWindowExceeds(perMinute, times, i, j);
    TwiceAsMany(Allowed(perMinute, times, i, j + 1), perMinute, times[j] - times[i]);
  }

  // ---------------------------------------------------------------------------------------
  // The limiter
  // ---------------------------------------------------------------------------------------

  class Limiter {
    const capacity: int
    const refillRate: real
    var tokens: real
    var last: real
    ghost var times: seq<real>

    ghost predicate Valid()
      reads this
    {
      && refillRate == Rate(capacity)
      && times != [] && last == times[|times| - 1]
      && tokens == Left(capacity as real, Metered(capacity, times))
    }

    constructor (perMinute: int, now: real)
      ensures Valid() && capacity == perMinute && times == [now]
    {
      capacity := perMinute;
      tokens := perMinute as real;
      refillRate := perMinute as real / 60.0;
      last := now;
      times := [now];
    }

    method Allow(now: real) returns (allowed: bool)
      requires Valid()
      modifies this
      ensures Valid() && times == old(times) + [now]
      ensures allowed <==> FitsEveryWindow(capacity, times, |times| - 1)
    {
      var found := Min(capacity as real, tokens + (now - last) * refillRate);
      CallRefines(capacity, times, tokens, now, last, refillRate, found);
      times := times + [now];
      tokens := found;
      last := now;
      allowed := tokens >= 1.0;
      if tokens >= 1.0 {
        tokens := tokens - 1.0;
      }
    }
  }

  lemma {:induction false} OneMoreCall(perMinute: int, times: seq<real>, now: real)
    requires times != []
    ensures
      var meter, meter' := Metered(perMinute, times), Metered(perMinute, times + [now]);
      var found := Min(
        perMinute as real,
        Left(perMinute as real, meter)
        + (InTokens(Rate(perMinute), now) - InTokens(Rate(perMinute), times[|times| - 1])));
      && (IsAllowed(perMinute, times + [now], |times|) <==> found >= 1.0)
      && Left(perMinute as real, meter') == if found >= 1.0 then found - 1.0 else found
  {
    var n, meter := |times|, Metered(perMinute, times + [now]);
    assert meter[..n] == Metered(perMinute, times);
    assert meter[..n + 1] == meter;
  }

  /** The arithmetic of one call decides and stores what the description of the run says. */
  lemma {:induction false} CallRefines(
      perMinute: int, times: seq<real>, tokens: real, now: real, last: real, refillRate: real, found: real)
    requires times != [] && tokens == Left(perMinute as real, Metered(perMinute, times))
    requires last == times[|times| - 1] && refillRate == Rate(perMinute)
    requires found == Min(perMinute as real, tokens + (now - last) * refillRate)
    ensures FitsEveryWindow(perMinute, times + [now], |times|) <==> found >= 1.0
    ensures Left(perMinute as real, Metered(perMinute, times + [now])) == if found >= 1.0 then found - 1.0 else found
  {
    OneMoreCall(perMinute, times, now);
    AllowedExactly(perMinute, times + [now], |times|);
    Refill(refillRate, last, now);
  }
}
