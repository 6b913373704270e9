/** The sliding-window rate limiter: two fixed-window counters per key stand for a trailing window. */
module Limiter {
  import opened Prelude

  const DEFAULT_MAX_KEYS: u64 := 1_000_000

  datatype WindowCounter = WindowCounter(index: nat, current: nat, previous: nat)

  // ---- One key ----

  function Roll(c: WindowCounter, index: nat): WindowCounter {
    if index == c.index + 1 then WindowCounter(index, 0, c.current)
    else if index > c.index + 1 then WindowCounter(index, 0, 0)
    else c
  }

  function IndexAt(window: nat, now: nat): nat
    requires window > 0
  {
    now / window
  }

  /** How far `now` is into its window. */
  function Offset(window: nat, now: nat): (e: nat)
    requires window > 0
    ensures e < window
  {
    now % window
  }

  function Fresh(window: nat, now: u64): WindowCounter
    requires window > 0
  {
    WindowCounter(IndexAt(window, now), 0, 0)
  }

  function Hit(window: nat, c: WindowCounter, now: u64): WindowCounter
    requires window > 0
  {
    var rolled := Roll(c, IndexAt(window, now));
    rolled.(current := rolled.current + 1)
  }

  /** The counters' estimate of the trailing window is within the limit, multiplied out by the window. */
  predicate Within(window: nat, limit: nat, c: WindowCounter, now: u64)
    requires window > 0
  {
    c.current * window + c.previous * (window - Offset(window, now)) <= limit * window
  }

  /** A key's counters after hits at `times`. */
  function After(window: nat, times: seq<u64>): WindowCounter
    requires window > 0 && times != []
  {
    var n := |times| - 1;
    Hit(window, if n == 0 then Fresh(window, times[n]) else After(window, times[..n]), times[n])
  }

  /** A key without hits starts from fresh counters. */
  function Before(window: nat, past: seq<u64>, now: u64): WindowCounter
    requires window > 0
  {
    if past == [] then Fresh(window, now) else After(window, past)
  }

  lemma OneMore(window: nat, past: seq<u64>, now: u64)
    requires window > 0
    ensures After(window, past + [now]) == Hit(window, Before(window, past, now), now)
  {
    assert (past + [now])[..|past|] == past;
  }

  predicate Admitted(window: nat, limit: nat, times: seq<u64>, i: nat)
    requires window > 0 && i < |times|
  {
    Within(window, limit, After(window, times[..i + 1]), times[i])
  }

  predicate Monotone(times: seq<u64>) {
    forall i, j :: 0 <= i < j < |times| ==> times[i] <= times[j]
  }

  /** Hits in fixed window `index`. */
  function InWindow(window: nat, times: seq<u64>, index: int): nat
    requires window > 0
  {
    if times == [] then 0
    else
      var n := |times| - 1;
      InWindow(window, times[..n], index) + if IndexAt(window, times[n]) == index then 1 else 0
  }

  lemma {:induction false} NoneLater(window: nat, times: seq<u64>, index: int)
    requires window > 0 && (forall i :: 0 <= i < |times| ==> IndexAt(window, times[i]) < index)
    ensures InWindow(window, times, index) == 0
  {
    hide IndexAt;
    if times != [] {
      NoneLater(window, times[..|times| - 1], index);
    }
  }

  lemma Cancel(window: nat, x: nat, y: nat)
    requires window * x < window * y
    ensures x < y
  {
  }

  lemma DivBounds(n: nat, window: nat)
    requires window > 0
    ensures window * IndexAt(window, n) <= n < window * (IndexAt(window, n) + 1)
  {
    assert n == window * (n / window) + n % window;
  }

  lemma DivMonotone(a: nat, b: nat, window: nat)
    requires window > 0 && a <= b
    ensures IndexAt(window, a) <= IndexAt(window, b)
  {
    hide IndexAt;
    DivBounds(a, window);
    DivBounds(b, window);
    QuotientOrder(window, a, b, IndexAt(window, a), IndexAt(window, b));
  }

  lemma QuotientOrder(window: nat, a: nat, b: nat, x: nat, y: nat)
    requires window * x <= a <= b < window * (y + 1)
    ensures x <= y
  {
    Cancel(window, x, y + 1);
  }

  /** Under a clock that never goes back, the two counters are the true numbers of hits in the window of
      the latest hit and in the one before it. */
  lemma {:induction false} CountersAreTrue(window: nat, times: seq<u64>)
    requires window > 0 && times != [] && Monotone(times)
    ensures var c := After(window, times);
            var index := IndexAt(window, times[|times| - 1]);
            && c.index == index
            && c.current == InWindow(window, times, index)
            && c.previous == InWindow(window, times, index - 1)
  {
    hide IndexAt;
    var n := |times| - 1;
    var init, index := times[..n], IndexAt(window, times[n]);
    if n == 0 {
      NoneLater(window, init, index);
    } else {
      CountersAreTrue(window, init);
      var before := IndexAt(window, times[n - 1]);
      forall i | 0 <= i < n
        ensures IndexAt(window, init[i]) <= before
      {
        DivMonotone(times[i], times[n - 1], window);
      }
      DivMonotone(times[n - 1], times[n], window);
      if index > before {
        NoneLater(window, init, index);
        if index > before + 1 {
          NoneLater(window, init, index - 1);
        }
      }
    }
  }

  /** The hits among the first `n` in fixed window `index`, refused ones included. */
  ghost function HitsIn(times: seq<u64>, n: nat, window: nat, index: int): set<nat>
    requires window > 0 && n <= |times|
  {
    set j: nat | j < n && times[j] / window == index
  }

  lemma {:induction false} InWindowCounts(window: nat, times: seq<u64>, n: nat, index: int)
    requires window > 0 && n <= |times|
    ensures InWindow(window, times[..n], index) == |HitsIn(times, n, window, index)|
  {
    if n > 0 {
      InWindowCounts(window, times, n - 1, index);
      assert times[..n][..n - 1] == times[..n - 1];
      var before, here := HitsIn(times, n - 1, window, index), HitsIn(times, n, window, index);
      assert here == if times[n - 1] / window == index then before + {n - 1} else before;
    }
  }

  /** Under a clock that never goes back, a hit is admitted if and only if the hits of its window so far,
      and those of the window before weighted by how much of it the trailing window still covers, are
      within the limit. */
  lemma AdmittedIff(window: nat, limit: nat, times: seq<u64>, i: nat)
    requires window > 0 && i < |times| && Monotone(times)
    ensures var t := times[i];
            Admitted(window, limit, times, i)
            <==> |HitsIn(times, i + 1, window, t / window)| * window
                 + |HitsIn(times, i + 1, window, t / window - 1)| * (window - t % window) <= limit * window
  {
    var seen, t := times[..i + 1], times[i];
    assert IndexAt(window, t) == t / window && Offset(window, t) == t % window;
    hide IndexAt, Offset, After, InWindow, HitsIn;
    CountersAreTrue(window, seen);
    InWindowCounts(window, times, i + 1, t / window);
    InWindowCounts(window, times, i + 1, t / window - 1);
  }

  // ---- How many are admitted ----

  /** Admitted hits among the first `n` at times after `from`. */
  function AdmittedSince(window: nat, limit: nat, times: seq<u64>, n: nat, from: int): nat
    requires window > 0 && n <= |times|
  {
    if n == 0 then 0
    else AdmittedSince(window, limit, times, n - 1, from)
         + if times[n - 1] > from && Admitted(window, limit, times, n - 1) then 1 else 0
  }

  /** Admitted hits among the first `n` in fixed window `index`. */
  function AdmittedInWindow(window: nat, limit: nat, times: seq<u64>, n: nat, index: int): nat
    requires window > 0 && n <= |times|
  {
    if n == 0 then 0
    else AdmittedInWindow(window, limit, times, n - 1, index)
         + if IndexAt(window, times[n - 1]) == index && Admitted(window, limit, times, n - 1) then 1 else 0
  }

  lemma {:induction false} AdmittedAreHits(window: nat, limit: nat, times: seq<u64>, n: nat, index: int)
    requires window > 0 && n <= |times|
    ensures AdmittedInWindow(window, limit, times, n, index) <= InWindow(window, times[..n], index)
  {
    hide IndexAt, Admitted;
    if n > 0 {
      AdmittedAreHits(window, limit, times, n - 1, index);
      assert times[..n][..n - 1] == times[..n - 1];
    }
  }

  lemma CurrentWithin(window: nat, limit: nat, c: WindowCounter, now: u64)
    requires window > 0 && Within(window, limit, c, now)
    ensures c.current <= limit
  {
    assert c.previous * (window - Offset(window, now)) >= 0;
    assert window * c.current < window * (limit + 1);
    Cancel(window, c.current, limit + 1);
  }

  /** No fixed window ever admits more than the limit. */
  lemma {:induction false} WindowBound(window: nat, limit: nat, times: seq<u64>, n: nat, index: int)
    requires window > 0 && n <= |times| && Monotone(times)
    ensures AdmittedInWindow(window, limit, times, n, index) <= limit
  {
    hide IndexAt, Within, After, InWindow;
    if n > 0 {
      if IndexAt(window, times[n - 1]) == index && Admitted(window, limit, times, n - 1) {
        AdmittedAreHits(window, limit, times, n, index);
        assert Monotone(times[..n]);
        CountersAreTrue(window, times[..n]);
        CurrentWithin(window, limit, After(window, times[..n]), times[n - 1]);
      } else {
        WindowBound(window, limit, times, n - 1, index);
      }
    }
  }

  /** Hits less than a window old fall in the latest hit's fixed window or in the one before it. */
  lemma {:induction false} TwoWindows(window: nat, limit: nat, times: seq<u64>, n: nat, from: int, index: int)
    requires window > 0 && n <= |times|
    requires forall i :: 0 <= i < n && times[i] > from ==> index - 1 <= IndexAt(window, times[i]) <= index
    ensures AdmittedSince(window, limit, times, n, from)
         <= AdmittedInWindow(window, limit, times, n, index) + AdmittedInWindow(window, limit, times, n, index - 1)
  {
    hide IndexAt, Admitted;
    if n > 0 {
      TwoWindows(window, limit, times, n - 1, from, index);
    }
  }

  lemma RecentWindow(window: nat, t: nat, last: nat, from: int)
    requires window > 0 && from < t <= last && last - window <= from
    ensures IndexAt(window, last) - 1 <= IndexAt(window, t) <= IndexAt(window, last)
  {
    hide IndexAt;
    DivMonotone(t, last, window);
    DivBounds(t, window);
    DivBounds(last, window);
    assert window * (IndexAt(window, t) + 2) == window * (IndexAt(window, t) + 1) + window;
    Cancel(window, IndexAt(window, last), IndexAt(window, t) + 2);
  }

  /** The inequality behind the bound: `c` and `p` are the counters at an admitted hit `e` into its
      window, `q` of the previous window's hits were admitted, and `total` counts both. */
  lemma Overlap(window: nat, limit: nat, e: nat, c: nat, p: nat, q: nat, total: nat)
    requires e < window && q <= p && q <= limit && total <= c + q
    requires c * window + p * (window - e) <= limit * window
    ensures total * window <= limit * (window + e)
  {
    assert q * (window - e) <= p * (window - e);
    assert total * window <= (c + q) * window;
    assert (c + q) * window == c * window + q * window;
    assert q * window == q * (window - e) + q * e;
    assert q * e <= limit * e;
    assert limit * (window + e) == limit * window + limit * e;
  }

  /** In any interval of one window's length, `n` hits in and ending at an admitted hit that is `e` into
      its fixed window, at most `limit * (1 + e / window)` hits are admitted. */
  lemma TrailingBound(window: nat, limit: nat, times: seq<u64>, n: nat, from: int)
    requires window > 0 && 0 < n <= |times| && Monotone(times)
    requires Admitted(window, limit, times, n - 1) && times[n - 1] - window <= from < times[n - 1]
    ensures AdmittedSince(window, limit, times, n, from) * window <= limit * (window + Offset(window, times[n - 1]))
  {
    hide IndexAt, After, InWindow, AdmittedSince, AdmittedInWindow;
    var last := times[n - 1];
    var index := IndexAt(window, last);
    forall i | 0 <= i < n && times[i] > from
      ensures index - 1 <= IndexAt(window, times[i]) <= index
    {
      RecentWindow(window, times[i], last, from);
    }
    TwoWindows(window, limit, times, n, from, index);
    AdmittedAreHits(window, limit, times, n, index);
    AdmittedAreHits(window, limit, times, n, index - 1);
    WindowBound(window, limit, times, n, index - 1);
    assert Monotone(times[..n]);
    CountersAreTrue(window, times[..n]);
    var c := After(window, times[..n]);
    Overlap(window, limit, Offset(window, last), c.current, c.previous,
            AdmittedInWindow(window, limit, times, n, index - 1), AdmittedSince(window, limit, times, n, from));
  }

  /** The last admitted hit after `from`, counted from 1; 0 if there is none. */
  function LastAdmitted(window: nat, limit: nat, times: seq<u64>, n: nat, from: int): (m: nat)
    requires window > 0 && n <= |times|
    ensures m <= n
    ensures m > 0 ==> times[m - 1] > from && Admitted(window, limit, times, m - 1)
    ensures AdmittedSince(window, limit, times, n, from) == AdmittedSince(window, limit, times, m, from)
  {
    if n == 0 || (times[n - 1] > from && Admitted(window, limit, times, n - 1)) then n
    else LastAdmitted(window, limit, times, n - 1, from)
  }

  /** Whatever the hits, a trailing interval of one window admits strictly fewer than twice the limit. */
  lemma FewerThanTwice(window: nat, limit: nat, times: seq<u64>, n: nat, end: nat)
    requires window > 0 && limit > 0 && n <= |times| && Monotone(times)
    requires forall i :: 0 <= i < n ==> times[i] <= end
    ensures AdmittedSince(window, limit, times, n, end - window) < 2 * limit
  {
    hide Admitted, AdmittedSince;
    var m := LastAdmitted(window, limit, times, n, end - window);
    var total := AdmittedSince(window, limit, times, m, end - window);
    if m == 0 {
      NoHits(window, limit, times, end - window);
    } else {
      TrailingBound(window, limit, times, m, end - window);
      Doubles(window, limit, Offset(window, times[m - 1]), total);
    }
  }

  lemma NoHits(window: nat, limit: nat, times: seq<u64>, from: int)
    requires window > 0
    ensures AdmittedSince(window, limit, times, 0, from) == 0
  {
  }

  lemma Doubles(window: nat, limit: nat, e: nat, total: nat)
    requires limit > 0 && e < window && total * window <= limit * (window + e)
    ensures total < 2 * limit
  {
    assert limit * (window + e) < limit * (2 * window) == window * (2 * limit);
    Cancel(window, total, 2 * limit);
  }

  // ---- When the limit itself holds ----

  lemma {:induction false} OneWindow(window: nat, limit: nat, times: seq<u64>, n: nat, from: int, index: int)
    requires window > 0 && n <= |times|
    requires forall i :: 0 <= i < n && times[i] > from ==> IndexAt(window, times[i]) == index
    ensures AdmittedSince(window, limit, times, n, from) <= AdmittedInWindow(window, limit, times, n, index)
  {
    hide IndexAt, Admitted;
    if n > 0 {
      OneWindow(window, limit, times, n - 1, from, index);
    }
  }

  /** The largest offset into its window at which a hit can share a trailing window with hits of the
      fixed window before: one less and the trailing window is the fixed one, and the clock must reach
      the second window. Negative for a window of 1 ms. */
  function Reach(window: nat): int {
    if window - 2 <= U64_MAX - window then window - 2 else U64_MAX - window
  }

  /** Whatever the hits, no trailing window admits more than the limit. */
  ghost predicate KeepsLimit(window: nat, limit: nat)
    requires window > 0
  {
    forall times: seq<u64>, n: nat, from: int ::
      n <= |times| && Monotone(times) && (forall i :: 0 <= i < n ==> times[i] <= from + window) ==>
        AdmittedSince(window, limit, times, n, from) <= limit
  }

  /** A hit in the first window, or at the end of its window, looks back no further than its window. */
  lemma SameWindow(window: nat, t: nat, last: nat, from: int)
    requires window > 0 && from < t <= last && last - window <= from
    requires last < window || Offset(window, last) == window - 1
    ensures IndexAt(window, t) == IndexAt(window, last)
  {
    DivMonotone(t, last, window);
    if last >= window {
      AtTheEnd(last, window);
      DivBounds(t, window);
      hide IndexAt;
      Cancel(window, IndexAt(window, last), IndexAt(window, t) + 1);
    } else {
      Small(t, window);
      Small(last, window);
    }
  }

  lemma AtTheEnd(last: nat, window: nat)
    requires window > 0 && Offset(window, last) == window - 1
    ensures last == window * IndexAt(window, last) + (window - 1)
  {
    assert last == window * (last / window) + last % window;
  }

  lemma Small(n: nat, window: nat)
    requires n < window
    ensures IndexAt(window, n) == 0
  {
  }

  lemma SmallOverlap(window: nat, limit: nat, e: nat, total: nat)
    requires window > 0 && total * window <= limit * (window + e) && limit * e < window
    ensures total <= limit
  {
    assert limit * (window + e) == limit * window + limit * e;
    assert window * total < window * (limit + 1);
    Cancel(window, total, limit + 1);
  }

  lemma LimitHolds(window: nat, limit: nat, times: seq<u64>, n: nat, from: int)
    requires window > 0 && limit * Reach(window) < window
    requires n <= |times| && Monotone(times) && (forall i :: 0 <= i < n ==> times[i] <= from + window)
    ensures AdmittedSince(window, limit, times, n, from) <= limit
  {
    hide Admitted, AdmittedSince, AdmittedInWindow, IndexAt;
    var m := LastAdmitted(window, limit, times, n, from);
    if m == 0 {
      NoHits(window, limit, times, from);
    } else {
      var last := times[m - 1];
      if last < window || Offset(window, last) == window - 1 {
        forall i | 0 <= i < m && times[i] > from
          ensures IndexAt(window, times[i]) == IndexAt(window, last)
        {
          SameWindow(window, times[i], last, from);
        }
        OneWindow(window, limit, times, m, from, IndexAt(window, last));
        WindowBound(window, limit, times, m, IndexAt(window, last));
      } else {
        TrailingBound(window, limit, times, m, from);
        OffsetReached(window, limit, last);
        SmallOverlap(window, limit, Offset(window, last), AdmittedSince(window, limit, times, m, from));
      }
    }
  }

  lemma OffsetReached(window: nat, limit: nat, last: u64)
    requires window > 0 && limit * Reach(window) < window
    requires last >= window && Offset(window, last) != window - 1
    ensures limit * Offset(window, last) < window
  {
    hide Offset;
    Wraps(last, window);
    MulMonotone(limit, Offset(window, last), Reach(window));
  }

  lemma MulMonotone(limit: nat, x: int, y: int)
    requires x <= y
    ensures limit * x <= limit * y
  {
  }

  lemma Wraps(last: nat, window: nat)
    requires 0 < window <= last
    ensures Offset(window, last) <= last - window
  {
    assert last == window * (last / window) + last % window;
    assert last / window >= 1;
    assert window * (last / window) >= window;
  }

  // ---- When it does not ----

  /** `a` hits at `x`, then `b` hits at `y`. */
  function Bursts(a: nat, x: u64, b: nat, y: u64): (times: seq<u64>)
    ensures |times| == a + b
    ensures forall i :: 0 <= i < |times| ==> times[i] == if i < a then x else y
  {
    seq(a, _ => x) + seq(b, _ => y)
  }

  lemma {:induction false} BurstsInWindow(window: nat, times: seq<u64>, a: nat, x: u64, y: u64, index: int)
    requires window > 0 && forall i :: 0 <= i < |times| ==> times[i] == if i < a then x else y
    ensures InWindow(window, times, index)
         == (if IndexAt(window, x) == index then (if |times| < a then |times| else a) else 0)
            + (if IndexAt(window, y) == index && |times| > a then |times| - a else 0)
  {
    hide IndexAt;
    if times != [] {
      BurstsInWindow(window, times[..|times| - 1], a, x, y, index);
    }
  }

  lemma {:induction false} AllAdmitted(window: nat, limit: nat, times: seq<u64>, n: nat, from: int)
    requires window > 0 && n <= |times|
    requires forall i :: 0 <= i < n ==> times[i] > from && Admitted(window, limit, times, i)
    ensures AdmittedSince(window, limit, times, n, from) == n
  {
    hide Admitted;
    if n > 0 {
      AllAdmitted(window, limit, times, n - 1, from);
    }
  }

  lemma SecondWindow(window: nat, e: nat)
    requires e < window
    ensures IndexAt(window, window + e) == 1 && Offset(window, window + e) == e
  {
    assert window + e == window * 1 + e;
  }

  /** The `i`-th hit of two bursts, one at the end of the first window and one `e` into the second. */
  lemma BurstAdmitted(window: nat, limit: nat, e: nat, k: nat, i: nat)
    requires e + 2 <= window && window + e <= U64_MAX && k * window <= limit * e
    requires i < limit + k
    ensures Admitted(window, limit, Bursts(limit, window - 1, k, window + e), i)
  {
    hide IndexAt, Offset, After, InWindow, Bursts;
    var x, y := window - 1, window + e;
    var times := Bursts(limit, x, k, y);
    var seen := times[..i + 1];
    Small(x, window);
    SecondWindow(window, e);
    CountersAreTrue(window, seen);
    var c := After(window, seen);
    BurstsInWindow(window, seen, limit, x, y, c.index);
    BurstsInWindow(window, seen, limit, x, y, c.index - 1);
    if i < limit {
      assert c.current == i + 1 && c.previous == 0;
      MulMonotone(window, i + 1, limit);
    } else {
      assert c.current == i + 1 - limit && c.previous == limit;
      SecondBurstWithin(window, limit, e, k, c.current);
    }
  }

  lemma SecondBurstWithin(window: nat, limit: nat, e: nat, k: nat, current: nat)
    requires current <= k && k * window <= limit * e
    ensures current * window + limit * (window - e) <= limit * window
  {
    MulMonotone(window, current, k);
    assert limit * (window - e) == limit * window - limit * e;
  }

  /** How many hits the weight of a full previous window lets through `e` into the next. */
  function Extra(window: nat, limit: nat, e: nat): nat
    requires window > 0
  {
    limit * e / window
  }

  lemma ExtraBounds(window: nat, limit: nat, e: nat)
    requires window > 0
    ensures Extra(window, limit, e) * window <= limit * e < (Extra(window, limit, e) + 1) * window
  {
    var n := limit * e;
    assert Extra(window, limit, e) == IndexAt(window, n);
    hide IndexAt, Extra;
    DivBounds(n, window);
  }

  /** The trailing bound is met at every offset that reaches the window before: these hits are all
      admitted, and one more would be above it. */
  lemma BoundIsMet(window: nat, limit: nat, e: nat)
    requires e + 2 <= window && window + e <= U64_MAX
    ensures var times := Bursts(limit, window - 1, Extra(window, limit, e), window + e);
            Monotone(times) && AdmittedSince(window, limit, times, |times|, e) == limit + Extra(window, limit, e)
    ensures limit * (window + e) < (limit + Extra(window, limit, e) + 1) * window
  {
    hide Extra, Admitted, AdmittedSince;
    var k := Extra(window, limit, e);
    ExtraBounds(window, limit, e);
    var times := Bursts(limit, window - 1, k, window + e);
    forall i | 0 <= i < |times|
      ensures times[i] > e && Admitted(window, limit, times, i)
    {
      BurstAdmitted(window, limit, e, k, i);
    }
    AllAdmitted(window, limit, times, |times|, e);
    OneMoreIsAbove(window, limit, e, k);
  }

  lemma OneMoreIsAbove(window: nat, limit: nat, e: nat, k: nat)
    requires limit * e < (k + 1) * window
    ensures limit * (window + e) < (limit + k + 1) * window
  {
    assert limit * (window + e) == limit * window + limit * e;
    assert (limit + k + 1) * window == limit * window + (k + 1) * window;
  }

  lemma LimitIsExceeded(window: nat, limit: nat)
    requires 0 < window <= U64_MAX && limit * Reach(window) >= window
    ensures !KeepsLimit(window, limit)
  {
    hide AdmittedSince, Bursts, Extra;
    var e := Reach(window);
    Positive(limit, e, window);
    BoundIsMet(window, limit, e);
    var k := Extra(window, limit, e);
    ExtraBounds(window, limit, e);
    Cancel(window, 1, k + 1);
    var times := Bursts(limit, window - 1, k, window + e);
    assert AdmittedSince(window, limit, times, |times|, e) > limit;
  }

  lemma Positive(limit: nat, e: int, window: nat)
    requires limit * e >= window > 0
    ensures e > 0
  {
  }

  /** The limit is a bound on every trailing window if and only if the window and limit are so small
      that the last offset reaching the window before lets less than one extra hit through. */
  lemma KeepsLimitIff(window: nat, limit: nat)
    requires 0 < window <= U64_MAX
    ensures KeepsLimit(window, limit) <==> limit * Reach(window) < window
  {
    hide AdmittedSince, Reach;
    if limit * Reach(window) < window {
      forall times: seq<u64>, n: nat, from: int |
        n <= |times| && Monotone(times) && (forall i :: 0 <= i < n ==> times[i] <= from + window)
        ensures AdmittedSince(window, limit, times, n, from) <= limit
      {
        LimitHolds(window, limit, times, n, from);
      }
    } else {
      LimitIsExceeded(window, limit);
    }
  }

  // ---- The limiter ----

  /** The hits recorded for each tracked key since it was last taken up, after one more. At capacity a
      new key displaces some tracked one. */
  predicate Recorded(before: map<Text, seq<u64>>, after: map<Text, seq<u64>>, max: nat, key: Text, now: u64) {
    && key in after
    && after[key] == (if key in before then before[key] else []) + [now]
    && (forall other :: other in after && other != key ==> other in before && after[other] == before[other])
    && (if |before| < max || key in before then before.Keys <= after.Keys
        else exists victim :: victim in before && before.Keys - {victim} <= after.Keys && victim !in after)
  }

  /** The counters are what the recorded hits make them. */
  ghost predicate Tracks(window: nat, counters: map<Text, WindowCounter>, history: map<Text, seq<u64>>)
    requires window > 0
  {
    && counters.Keys == history.Keys
    && forall key :: key in counters ==> history[key] != [] && counters[key] == After(window, history[key])
  }

  function Past(history: map<Text, seq<u64>>, key: Text): seq<u64> {
    if key in history then history[key] else []
  }

  lemma TracksHit(window: nat, counters: map<Text, WindowCounter>, history: map<Text, seq<u64>>, key: Text, now: u64)
    requires window > 0 && Tracks(window, counters, history)
    ensures var counter := Hit(window, if key in counters then counters[key] else Fresh(window, now), now);
            && Tracks(window, counters[key := counter], history[key := Past(history, key) + [now]])
            && counter == After(window, Past(history, key) + [now])
  {
    hide Hit, After;
    OneMore(window, Past(history, key), now);
  }

  lemma RecordsHit(before: map<Text, seq<u64>>, mid: map<Text, seq<u64>>, max: nat, key: Text, now: u64)
    requires if |before| < max || key in before then mid == before
             else exists victim :: victim in before && mid == before - {victim}
    ensures Recorded(before, mid[key := Past(mid, key) + [now]], max, key, now)
  {
    var after := mid[key := Past(mid, key) + [now]];
    if !(|before| < max || key in before) {
      var victim :| victim in before && mid == before - {victim};
      assert before.Keys - {victim} <= after.Keys && victim !in after;
    }
  }

  class SlidingWindowLimiter {
    const window: nat
    const limit: nat
    const maxKeys: nat
    var counters: map<Text, WindowCounter>
    ghost var history: map<Text, seq<u64>>

    ghost predicate Valid()
      reads this
    {
      window > 0 && maxKeys > 0 && |counters| <= maxKeys && Tracks(window, counters, history)
    }

    constructor WithCapacity(window: u64, limit: u64, maxKeys: u64)
      requires window > 0 && maxKeys > 0
      ensures Valid() && history == map[]
      ensures this.window == window && this.limit == limit && this.maxKeys == maxKeys
    {
      this.window := window;
      this.limit := limit;
      this.maxKeys := maxKeys;
      counters := map[];
      history := map[];
    }

    /** At capacity a new key displaces some tracked one. */
    method Evict(key: Text)
      requires Valid()
      modifies this
      ensures Valid() && (key !in counters ==> |counters| < maxKeys)
      ensures if |old(history)| < maxKeys || key in old(history) then history == old(history)
              else exists victim :: victim in old(history) && history == old(history) - {victim}
    {
      assert |counters.Keys| == |history.Keys|;
      if |counters| >= maxKeys && key !in counters {
        var victim :| victim in counters;
        RemoveOne(counters, victim);
        counters := counters - {victim};
        history := history - {victim};
      }
    }

    /** Records a hit and decides it. What it decides is what the bounds above speak of, on the hits
        recorded for the key since it was last displaced. */
    method Check(key: Text, now: u64) returns (allow: bool)
      requires Valid()
      modifies this
      ensures Valid()
      ensures Recorded(old(history), history, maxKeys, key, now)
      ensures allow == Admitted(window, limit, history[key], |history[key]| - 1)
    {
      hide Hit, Within, After, Tracks, IndexAt, Fresh, Recorded;
      ghost var before := history;
      Evict(key);
      assert counters.Keys == history.Keys by {
        SameKeys(window, counters, history);
      }
      ghost var past := Past(history, key);
      TracksHit(window, counters, history, key, now);
      var counter := Hit(window, if key in counters then counters[key] else Fresh(window, now), now);
      AddOne(counters, key, counter);
      counters := counters[key := counter];
      RecordsHit(before, history, maxKeys, key, now);
      history := history[key := past + [now]];
      assert (past + [now])[..|past| + 1] == past + [now];
      allow := Within(window, limit, counter, now);
    }
  }

  lemma SameKeys(window: nat, counters: map<Text, WindowCounter>, history: map<Text, seq<u64>>)
    requires window > 0 && Tracks(window, counters, history)
    ensures counters.Keys == history.Keys
  {
  }

  lemma RemoveOne<T>(m: map<Text, T>, key: Text)
    requires key in m
    ensures |m - {key}| == |m| - 1
  {
    assert (m - {key}).Keys == m.Keys - {key};
  }

  lemma AddOne<T>(m: map<Text, T>, key: Text, value: T)
    ensures |m[key := value]| == if key in m then |m| else |m| + 1
  {
    assert m[key := value].Keys == m.Keys + {key};
  }
}
