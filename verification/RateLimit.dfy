/**
 The request counter of backend/core/rate_limit.py:24-43 with Redis up: INCR, and EXPIRE on the first request, as one
 step. One client and path; times are in seconds. Rejected requests count as well.
 */
module RateLimit {
  /** The Redis key: absent, or a value with the time it expires. */
  datatype Counter = Absent | Present(value: nat, expires: int)

  function Hit(c: Counter, window: nat, now: int): Counter {
    var count := if c.Absent? || now >= c.expires then 1 else c.value + 1;
    if count == 1 then Present(1, now + window) else c.(value := count)
  }

  class Limiter {
    const maxRequests: nat
    const window: nat
    var counter: Counter

    constructor (maxRequests: nat, window: nat)
      ensures counter == Absent && this.maxRequests == maxRequests && this.window == window
    {
      this.maxRequests, this.window, counter := maxRequests, window, Absent;
    }

    /** True when the request is let through. */
    method Check(now: int) returns (admitted: bool)
      modifies this
      ensures counter == Hit(old(counter), window, now)
      ensures admitted == (counter.value <= maxRequests)
    {
      if counter.Present? && now >= counter.expires { counter := Absent; }
      var count := if counter.Absent? then 1 else counter.value + 1;
      counter := if count == 1 then Present(1, now + window) else counter.(value := count);
      admitted := count <= maxRequests;
    }
  }

  // ---- runs ----

  predicate Ascending(times: seq<int>) { forall i, j :: 0 <= i < j < |times| ==> times[i] <= times[j] }

  function After(times: seq<int>, window: nat, n: nat): (c: Counter)
    requires n <= |times|
    ensures c.Absent? <==> n == 0
  {
    if n == 0 then Absent else Hit(After(times, window, n - 1), window, times[n - 1])
  }

  predicate Admitted(times: seq<int>, window: nat, max: nat, i: nat)
    requires i < |times|
  {
    After(times, window, i + 1).value <= max
  }

  /** How many of the requests from `a` up to `b` are let through. */
  function Passed(times: seq<int>, window: nat, max: nat, a: nat, b: nat): nat
    requires a <= b <= |times|
  {
    if a == b then 0 else Passed(times, window, max, a, b - 1) + (if Admitted(times, window, max, b - 1) then 1 else 0)
  }

  function Min(a: nat, b: nat): nat { if a < b then a else b }

  lemma {:induction false} CounterIsPositive(times: seq<int>, window: nat, n: nat)
    requires 0 < n <= |times| && window > 0 && Ascending(times)
    ensures After(times, window, n).value >= 1
    ensures times[n - 1] < After(times, window, n).expires <= times[n - 1] + window
  {
    if n > 1 { CounterIsPositive(times, window, n - 1); }
  }

  /**
   The requests from `a` to `b`, all less than a window after the first: either their counter was running before `a`, and
   one of its admissions lies before `a`; or it started at or after `a`, and no other can start before the window is over.
   */
  lemma {:induction false} WithinOneWindow(times: seq<int>, window: nat, max: nat, a: nat, b: nat)
    requires Ascending(times) && window > 0 && a < b <= |times| && times[b - 1] < times[a] + window && max > 0
    ensures var c := After(times, window, b); var passed := Passed(times, window, max, a, b);
      || (c.expires < times[a] + window && passed + 1 <= Min(c.value, max))
      || (c.expires >= times[a] + window && passed <= max - 1 + Min(c.value, max))
  {
    CounterIsPositive(times, window, b);
    if a > 0 { CounterIsPositive(times, window, a); }
    if a < b - 1 {
      WithinOneWindow(times, window, max, a, b - 1);
      CounterIsPositive(times, window, b - 1);
    } else {
      assert Passed(times, window, max, a, a) == 0;
    }
  }

  /**
   In any half-open interval of one window, at most 2 * max - 1 requests are let through, whatever the schedule. The
   requests of an interval are consecutive, so `a` and `b` range over all intervals.
   */
  lemma IntervalBound(times: seq<int>, window: nat, max: nat, a: nat, b: nat)
    requires Ascending(times) && a < b <= |times| && times[b - 1] < times[a] + window
    ensures Passed(times, window, max, a, b) <= if max == 0 then 0 else 2 * max - 1
  {
    if max > 0 {
      WithinOneWindow(times, window, max, a, b);
    } else {
      NothingPasses(times, window, a, b);
    }
  }

  lemma {:induction false} NothingPasses(times: seq<int>, window: nat, a: nat, b: nat)
    requires Ascending(times) && window > 0 && a <= b <= |times|
    ensures Passed(times, window, 0, a, b) == 0
  {
    if a < b {
      NothingPasses(times, window, a, b - 1);
      CounterIsPositive(times, window, b);
    }
  }

  // ---- the bound is reached ----

  /** One request at 0, `max` - 1 just before its window ends, `max` when it ends. */
  function Burst(window: nat, max: nat): seq<int>
    requires max > 0
  {
    seq(2 * max, i => if i == 0 then 0 else if i < max then window - 1 else window)
  }

  lemma {:induction false} BurstCounts(window: nat, max: nat, n: nat)
    requires max > 0 && window > 1 && 0 < n <= 2 * max
    ensures After(Burst(window, max), window, n)
         == if n <= max then Present(n, window) else Present(n - max, 2 * window)
  {
    if n > 1 { BurstCounts(window, max, n - 1); }
  }

  lemma {:induction false} BurstPasses(window: nat, max: nat, n: nat)
    requires max > 0 && window > 1 && 1 <= n <= 2 * max
    ensures Passed(Burst(window, max), window, max, 1, n) == n - 1
  {
    if n > 1 {
      BurstPasses(window, max, n - 1);
      BurstCounts(window, max, n);
    }
  }

  /** So this is no sliding window: 2 * max - 1 requests can pass within two seconds. */
  lemma BoundIsReached(window: nat, max: nat)
    requires max > 0 && window > 1
    ensures var times := Burst(window, max);
      && Ascending(times)
      && (max > 1 ==> times[2 * max - 1] <= times[1] + 1)
      && Passed(times, window, max, 1, 2 * max) == 2 * max - 1
  {
    BurstPasses(window, max, 2 * max);
  }
}
