/** The sliding-window limiter on chain calls. */
module RateLimiting {

  /** Sixty seconds, in the nanoseconds of an Instant. */
  const PERIOD: nat := 60_000_000_000

  /** `now.duration_since(t) < period`; the duration saturates at zero. */
  predicate Recent(t: nat, now: nat) { now < t + PERIOD }

  /** `retain` and `filter`. */
  function Active(times: seq<nat>, now: nat): seq<nat>
  {
    if times == [] then []
    else
      var front, last := times[..|times| - 1], times[|times| - 1];
      Active(front, now) + if Recent(last, now) then [last] else []
  }

  predicate Allows(times: seq<nat>, maxCalls: nat, now: nat)
  {
    |Active(times, now)| < maxCalls
  }

  function Next(times: seq<nat>, maxCalls: nat, now: nat): seq<nat>
  {
    Active(times, now) + if Allows(times, maxCalls, now) then [now] else []
  }

  class RateLimiter {
    const maxCalls: nat
    var callTimes: seq<nat>

    constructor (maxCallsPerMinute: nat)
      ensures maxCalls == maxCallsPerMinute && callTimes == []
    {
      maxCalls, callTimes := maxCallsPerMinute, [];
    }

    method TryAcquire(now: nat) returns (granted: bool)
      modifies this`callTimes
      ensures granted == Allows(old(callTimes), maxCalls, now)
      ensures callTimes == Next(old(callTimes), maxCalls, now)
    {
      callTimes := Active(callTimes, now);
      if |callTimes| >= maxCalls {
        return false;
      }
      callTimes := callTimes + [now];
      return true;
    }

    method Remaining(now: nat) returns (quota: nat)
      ensures quota == Quota(callTimes, maxCalls, now)
    {
      var active := |Active(callTimes, now)|;
      quota := if maxCalls < active then 0 else maxCalls - active;
    }
  }

  function Quota(times: seq<nat>, maxCalls: nat, now: nat): nat
  {
    if maxCalls < |Active(times, now)| then 0 else maxCalls - |Active(times, now)|
  }

  // --------------------------------------------------------------------- runs --

  ghost predicate ClockRuns(calls: seq<nat>)
  {
    forall i, j :: 0 <= i <= j < |calls| ==> calls[i] <= calls[j]
  }

  /** The limiter's list after calls at these times. */
  ghost function After(maxCalls: nat, calls: seq<nat>): seq<nat>
  {
    if calls == [] then [] else Next(After(maxCalls, calls[..|calls| - 1]), maxCalls, calls[|calls| - 1])
  }

  /** The times of the granted calls. */
  ghost function Grants(maxCalls: nat, calls: seq<nat>): seq<nat>
  {
    if calls == [] then []
    else
      var front, now := calls[..|calls| - 1], calls[|calls| - 1];
      Grants(maxCalls, front) + if Allows(After(maxCalls, front), maxCalls, now) then [now] else []
  }

  /** How many times fall into the half-open window of one period that starts at `start`. */
  ghost function InWindow(times: seq<nat>, start: int): nat
  {
    if times == [] then 0
    else
      var front, last := times[..|times| - 1], times[|times| - 1];
      InWindow(front, start) + if start <= last < start + 60_000_000_000 then 1 else 0
  }

  lemma ActiveSnoc(times: seq<nat>, t: nat, now: nat)
    ensures Active(times + [t], now) == Active(times, now) + if Recent(t, now) then [t] else []
  {
    assert (times + [t])[..|times|] == times;
  }

  /** Pruning at one time does not matter to pruning at a later one. */
  lemma {:induction false} ActiveTwice(times: seq<nat>, earlier: nat, now: nat)
    requires earlier <= now
    ensures Active(Active(times, earlier), now) == Active(times, now)
  {
    if times != [] {
      var front, last := times[..|times| - 1], times[|times| - 1];
      ActiveTwice(front, earlier, now);
      if Recent(last, earlier) {
        ActiveSnoc(Active(front, earlier), last, now);
      } else {
        assert Active(times, earlier) == Active(front, earlier);
      }
    }
  }

  /** The pruned list decides as the whole grant history would. */
  lemma {:induction false} ListIsHistory(maxCalls: nat, calls: seq<nat>, now: nat)
    requires ClockRuns(calls) && (calls != [] ==> calls[|calls| - 1] <= now)
    ensures Active(After(maxCalls, calls), now) == Active(Grants(maxCalls, calls), now)
  {
    if calls != [] {
      hide Active;
      var front, last := calls[..|calls| - 1], calls[|calls| - 1];
      var before, history := After(maxCalls, front), Grants(maxCalls, front);
      ListIsHistory(maxCalls, front, last);
      ActiveTwice(before, last, now);
      ActiveTwice(history, last, now);
      if Allows(before, maxCalls, last) {
        ActiveSnoc(Active(before, last), last, now);
        ActiveSnoc(history, last, now);
      } else {
        assert After(maxCalls, calls) == Active(before, last);
        assert Grants(maxCalls, calls) == history;
      }
    }
  }

  /** What lies in a window that contains `now` is still active at `now`. */
  lemma {:induction false} WindowIsActive(times: seq<nat>, start: int, now: nat)
    requires now < start + PERIOD
    ensures InWindow(times, start) <= |Active(times, now)|
  {
    if times != [] {
      WindowIsActive(times[..|times| - 1], start, now);
    }
  }

  /** No window of sixty seconds, wherever it starts, holds more than `maxCalls` grants. */
  lemma {:induction false} WindowBound(maxCalls: nat, calls: seq<nat>, start: int)
    requires ClockRuns(calls)
    ensures InWindow(Grants(maxCalls, calls), start) <= maxCalls
  {
    if calls != [] {
      var front, now := calls[..|calls| - 1], calls[|calls| - 1];
      var history := Grants(maxCalls, front);
      WindowBound(maxCalls, front, start);
      if Allows(After(maxCalls, front), maxCalls, now) {
        assert (history + [now])[..|history|] == history;
        if start <= now < start + PERIOD {
          WindowIsActive(history, start, now);
          ListIsHistory(maxCalls, front, now);
        }
      } else {
        assert Grants(maxCalls, calls) == history;
      }
    }
  }

  lemma {:induction false} ActiveIsWindow(times: seq<nat>, now: nat)
    requires forall i :: 0 <= i < |times| ==> times[i] <= now
    ensures |Active(times, now)| == InWindow(times, now - PERIOD + 1)
  {
    if times != [] {
      ActiveIsWindow(times[..|times| - 1], now);
    }
  }

  lemma {:induction false} GrantsAreCalls(maxCalls: nat, calls: seq<nat>, now: nat)
    requires forall i :: 0 <= i < |calls| ==> calls[i] <= now
    ensures forall i :: 0 <= i < |Grants(maxCalls, calls)| ==> Grants(maxCalls, calls)[i] <= now
  {
    if calls != [] {
      GrantsAreCalls(maxCalls, calls[..|calls| - 1], now);
    }
  }

  /** A call is refused exactly when `maxCalls` grants lie in the sixty seconds up to it. */
  lemma RefusedWhenFull(maxCalls: nat, calls: seq<nat>, now: nat)
    requires ClockRuns(calls) && (calls != [] ==> calls[|calls| - 1] <= now)
    ensures !Allows(After(maxCalls, calls), maxCalls, now)
       <==> InWindow(Grants(maxCalls, calls), now - 60_000_000_000 + 1) == maxCalls
  {
    ListIsHistory(maxCalls, calls, now);
    GrantsAreCalls(maxCalls, calls, now);
    ActiveIsWindow(Grants(maxCalls, calls), now);
    WindowBound(maxCalls, calls, now - PERIOD + 1);
  }

  lemma {:induction false} ActiveIsRecent(times: seq<nat>, now: nat)
    ensures forall t :: t in Active(times, now) ==> t in times && now < t + 60_000_000_000
  {
    if times != [] {
      ActiveIsRecent(times[..|times| - 1], now);
    }
  }

  /** What is kept in memory: never more than `maxCalls` times, all from the sixty seconds before the last call. */
  lemma {:induction false} ListStaysShort(maxCalls: nat, calls: seq<nat>)
    requires calls != []
    ensures |After(maxCalls, calls)| <= maxCalls
    ensures forall t :: t in After(maxCalls, calls) ==> calls[|calls| - 1] < t + 60_000_000_000
  {
    var front, now := calls[..|calls| - 1], calls[|calls| - 1];
    ActiveIsRecent(After(maxCalls, front), now);
    ActiveShrinks(After(maxCalls, front), now);
    if front != [] {
      ListStaysShort(maxCalls, front);
    }
  }

  lemma {:induction false} ActiveShrinks(times: seq<nat>, now: nat)
    ensures |Active(times, now)| <= |times|
  {
    if times != [] {
      ActiveShrinks(times[..|times| - 1], now);
    }
  }

  /** k calls at one instant. */
  ghost function Burst(times: seq<nat>, maxCalls: nat, now: nat, k: nat): seq<nat>
  {
    if k == 0 then times else Next(Burst(times, maxCalls, now, k - 1), maxCalls, now)
  }

  /** `remaining` is the number of calls that would still be granted at this instant: the k-th further one is granted
      exactly when k is below it. */
  lemma {:induction false} RemainingIsExact(times: seq<nat>, maxCalls: nat, now: nat, k: nat)
    ensures Allows(Burst(times, maxCalls, now, k), maxCalls, now) <==> k < Quota(times, maxCalls, now)
  {
    BurstCount(times, maxCalls, now, k);
  }

  lemma {:induction false} BurstCount(times: seq<nat>, maxCalls: nat, now: nat, k: nat)
    ensures var n, m := |Active(times, now)|, |Active(Burst(times, maxCalls, now, k), now)|;
      m == if n >= maxCalls then n else if n + k <= maxCalls then n + k else maxCalls
  {
    hide Active;
    if k != 0 {
      BurstCount(times, maxCalls, now, k - 1);
      NextCount(Burst(times, maxCalls, now, k - 1), maxCalls, now);
    }
  }

  lemma NextCount(times: seq<nat>, maxCalls: nat, now: nat)
    ensures |Active(Next(times, maxCalls, now), now)|
         == |Active(times, now)| + if Allows(times, maxCalls, now) then 1 else 0
  {
    hide Active;
    ActiveTwice(times, now, now);
    ActiveSnoc(Active(times, now), now, now);
    assert Active(times, now) + [] == Active(times, now);
  }
}
