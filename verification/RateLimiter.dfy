/** The sliding-window rate limiter of a connection. Times are nanoseconds of a steady clock. */
module RateLimiter {
  import opened Primitives

  const WINDOW := 1_000_000_000

  /** The calls at or after a time, in order. */
  function Since(calls: seq<int>, cutoff: int): seq<int> {
    if calls == [] then []
    else Since(calls[..|calls| - 1], cutoff) + if calls[|calls| - 1] >= cutoff then [calls[|calls| - 1]] else []
  }

  predicate NonDecreasing(calls: seq<int>) {
    forall i, j | 0 <= i <= j < |calls| :: calls[i] <= calls[j]
  }

  lemma {:induction false} SinceIsSuffix(calls: seq<int>, k: nat, cutoff: int)
    requires k <= |calls| && NonDecreasing(calls)
    requires forall i | 0 <= i < k :: calls[i] < cutoff
    requires k < |calls| ==> calls[k] >= cutoff
    ensures Since(calls, cutoff) == calls[k..]
    decreases |calls|
  {
    if calls != [] {
      var n := |calls| - 1;
      var before := calls[..n];
      if k <= n {
        assert before[k..] + [calls[n]] == calls[k..];
        SinceIsSuffix(before, k, cutoff);
      } else {
        SinceIsSuffix(before, n, cutoff);
      }
    }
  }

  class Limiter {
    /** The queue of recent calls. */
    var messageTimes: seq<int>
    /** All calls so far. */
    ghost var calls: seq<int>

    /** The queue is what the last call left of the history. */
    ghost predicate Valid()
      reads this
    {
      NonDecreasing(calls) && (calls == [] ==> messageTimes == [])
      && (calls != [] ==> messageTimes == Since(calls, calls[|calls| - 1] - WINDOW))
    }

    constructor ()
      ensures Valid() && calls == []
    {
      messageTimes, calls := [], [];
    }

    /** Every call is recorded, let through or not; the queue then holds exactly the calls of the
        last second. */
    method IsRateLimited(now: int, maxPerSecond: int) returns (limited: bool)
      requires Valid() && (calls != [] ==> calls[|calls| - 1] <= now)
      modifies this
      ensures Valid() && calls == old(calls) + [now]
      ensures messageTimes == Since(calls, now - WINDOW)
      ensures limited == (|Since(calls, now - WINDOW)| > maxPerSecond)
    {
      ghost var all := calls + [now];
      QueueIsSuffix(calls, messageTimes, now);
      OneMoreCall(calls, now);
      calls := all;
      messageTimes := DropOlder(messageTimes + [now], now - WINDOW, all);
      limited := |messageTimes| > maxPerSecond;
    }
  }

  /** Pop the front of the queue while it is too old. */
  method DropOlder(queue: seq<int>, cutoff: int, ghost all: seq<int>) returns (kept: seq<int>)
    requires NonDecreasing(all) && |queue| <= |all| && queue == all[|all| - |queue|..]
    requires forall i | 0 <= i < |all| - |queue| :: all[i] < cutoff
    ensures kept == Since(all, cutoff)
  {
    kept := queue;
    ghost var dropped := |all| - |queue|;
    while kept != [] && kept[0] < cutoff
      invariant 0 <= dropped <= |all| && kept == all[dropped..]
      invariant forall i | 0 <= i < dropped :: all[i] < cutoff
      decreases |kept|
    {
      kept := kept[1..];
      dropped := dropped + 1;
    }
    SinceIsSuffix(all, dropped, cutoff);
  }

  lemma OneMoreCall(calls: seq<int>, now: int)
    requires NonDecreasing(calls) && (calls != [] ==> calls[|calls| - 1] <= now)
    ensures NonDecreasing(calls + [now])
  {
    var all := calls + [now];
    forall i, j | 0 <= i <= j < |all|
      ensures all[i] <= all[j]
    {
      assert i < |calls| ==> calls[i] <= calls[|calls| - 1];
    }
  }

  /** The queue before a call is a suffix of the history, everything before it being too old already
      for the next call. */
  lemma QueueIsSuffix(calls: seq<int>, queue: seq<int>, now: int)
    requires NonDecreasing(calls) && (calls != [] ==> calls[|calls| - 1] <= now)
    requires queue == if calls == [] then [] else Since(calls, calls[|calls| - 1] - WINDOW)
    ensures |queue| <= |calls| && queue == calls[|calls| - |queue|..]
    ensures forall i | 0 <= i < |calls| - |queue| :: calls[i] < now - WINDOW
  {
    if calls != [] {
      var cutoff := calls[|calls| - 1] - WINDOW;
      var k := FirstSince(calls, cutoff);
      SinceIsSuffix(calls, k, cutoff);
      assert queue == calls[k..];
    }
  }

  ghost function FirstSince(calls: seq<int>, cutoff: int): (k: nat)
    requires NonDecreasing(calls)
    ensures k <= |calls| && forall i | 0 <= i < k :: calls[i] < cutoff
    ensures k < |calls| ==> calls[k] >= cutoff
  {
    if calls == [] || calls[0] >= cutoff then 0 else 1 + FirstSince(calls[1..], cutoff)
  }

  // ----- at most so many in any second -----

  /** The call at this position was let through: at most max calls, itself included, in the second
      that ends with it. */
  ghost predicate Passed(calls: seq<int>, i: nat, max: nat)
    requires i < |calls|
  {
    |Since(calls[..i + 1], calls[i] - WINDOW)| <= max
  }

  /** The positions of the calls let through in a closed window of one second. */
  ghost function PassedIn(calls: seq<int>, start: int, max: nat): set<nat> {
    set i: nat | i < |calls| && Passed(calls, i, max) && start <= calls[i] <= start + WINDOW
  }

  function Positions(lo: nat, hi: nat): (s: set<nat>)
    requires lo <= hi
    ensures |s| == hi - lo && forall i: nat :: i in s <==> lo <= i < hi
    decreases hi - lo
  {
    if lo == hi then {} else Positions(lo, hi - 1) + {hi - 1}
  }

  lemma Largest(s: set<nat>) returns (m: nat)
    requires s != {}
    ensures m in s && forall x | x in s :: x <= m
    decreases |s|
  {
    var first :| first in s;
    if s == {first} {
      m := first;
    } else {
      var rest := Largest(s - {first});
      m := Max(first, rest);
      assert forall x | x in s :: x == first || x in s - {first};
    }
  }

  lemma SubsetCount(a: set<nat>, b: set<nat>)
    requires a <= b
    ensures |a| <= |b|
  {
    assert a + (b - a) == b;
  }

  /** With a clock that never runs backwards, at most max messages pass in any closed window of one
      second, wherever the window starts. */
  lemma AtMostMaxPerSecond(calls: seq<int>, start: int, max: nat)
    requires NonDecreasing(calls)
    ensures |PassedIn(calls, start, max)| <= max
  {
    var passed := PassedIn(calls, start, max);
    if passed != {} {
      var last := Largest(passed);
      var recent, cutoff := calls[..last + 1], calls[last] - WINDOW;
      var k := FirstSince(recent, cutoff);
      SinceIsSuffix(recent, k, cutoff);
      assert passed <= Positions(k, last + 1) by {
        forall i | i in passed
          ensures k <= i < last + 1
        {
          assert recent[i] == calls[i] >= cutoff;
        }
      }
      SubsetCount(passed, Positions(k, last + 1));
    }
  }
}
