/** The fixed-window rate limiter, in memory and in Redis. */
module RateLimit {
  import opened Common

  datatype Window = Window(count: nat, expires: real)

  /** `limit or self.limit`: zero counts as absent. */
  function Maximum(limit: Option<nat>, default: nat): nat {
    if limit.Some? && limit.value != 0 then limit.value else default
  }

  predicate Nondecreasing(times: seq<real>) {
    forall i, j :: 0 <= i < j < |times| ==> times[i] <= times[j]
  }

  // ---------------------------------------------------------------------------
  // The two counters, as functions of the times of all calls on one key
  // ---------------------------------------------------------------------------

  /** The stored entry after the first n calls. */
  function Entry(times: seq<real>, n: nat, window: real): (w: Option<Window>)
    requires n <= |times|
    ensures w.Some? <==> n > 0
    ensures n > 0 ==> 0 < w.value.count <= n
  {
    if n == 0 then None
    else
      var now := times[n - 1];
      var before := Entry(times, n - 1, window);
      if before.None? || before.value.expires <= now then Some(Window(1, now + window))
      else Some(Window(before.value.count + 1, before.value.expires))
  }

  /** What call i counts to in memory. */
  function MemoryCount(times: seq<real>, i: nat, window: real): (c: nat)
    requires i < |times|
    ensures 0 < c <= i + 1
  {
    Entry(times, i + 1, window).value.count
  }

  /** The aligned bucket of a time: floor division, for a clock counted from zero and a window of whole seconds. */
  function Bucket(now: real, window: real): (b: nat)
    requires window >= 1.0
    decreases now
  {
    if now < window then 0 else 1 + Bucket(now - window, window)
  }

  lemma {:induction false} BucketIsFloorDivision(now: real, window: real)
    requires window >= 1.0 && now >= 0.0
    ensures Bucket(now, window) == (now / window).Floor
    decreases now
  {
    if now < window {
      assert 0.0 <= now / window < 1.0;
    } else {
      BucketIsFloorDivision(now - window, window);
      var q := now / window;
      assert (q - 1.0) * window == now - window;
      Quotient(now - window, q - 1.0, window);
    }
  }

  lemma Quotient(x: real, y: real, window: real)
    requires window >= 1.0 && y * window == x
    ensures x / window == y
  {
    assert (x / window - y) * window == 0.0;
  }

  function HitsIn(times: seq<real>, n: nat, bucket: nat, window: real): nat
    requires n <= |times| && window >= 1.0
  {
    if n == 0 then 0 else HitsIn(times, n - 1, bucket, window) + (if Bucket(times[n - 1], window) == bucket then 1 else 0)
  }

  /** What call i counts to in Redis: the calls in its bucket so far. */
  function RedisCount(times: seq<real>, i: nat, window: real): (c: nat)
    requires i < |times| && window >= 1.0
    ensures c > 0
  {
    HitsIn(times, i + 1, Bucket(times[i], window), window)
  }

  // ---------------------------------------------------------------------------
  // The limiter in memory
  // ---------------------------------------------------------------------------

  class MemoryLimiter {
    const limit: nat
    const window: real
    var counts: map<string, Window>

    /** The times of all calls so far, by key. */
    ghost var calls: map<string, seq<real>>

    ghost predicate Valid()
      reads this
    {
      forall k :: (k in counts <==> k in calls) && (k in calls ==> calls[k] != [] && Entry(calls[k], |calls[k]|, window) == Some(counts[k]))
    }

    constructor (limit: nat, window: real)
      ensures Valid() && calls == map[] && this.limit == limit && this.window == window
    {
      this.limit, this.window := limit, window;
      counts, calls := map[], map[];
    }

    ghost function CallsOn(key: string): seq<real>
      reads this
    {
      if key in calls then calls[key] else []
    }

    method Check(key: string, limit: Option<nat>, now: real) returns (admitted: bool)
      requires Valid()
      modifies this
      ensures Valid() && calls == old(calls)[key := old(CallsOn(key)) + [now]]
      ensures var maximum := if limit.Some? && limit.value != 0 then limit.value else this.limit;
              admitted <==> MemoryCount(calls[key], |calls[key]| - 1, window) <= maximum
    {
      var maximum := Maximum(limit, this.limit);
      var count, expires := 0, now + window;
      if key in counts { count, expires := counts[key].count, counts[key].expires; }
      if expires <= now { count, expires := 0, now + window; }
      count := count + 1;
      counts := counts[key := Window(count, expires)];
      EntryOfPrefix(CallsOn(key), now, |CallsOn(key)|, window);
      calls := calls[key := CallsOn(key) + [now]];
      admitted := count <= maximum;
    }
  }

  lemma {:induction false} EntryOfPrefix(times: seq<real>, now: real, n: nat, window: real)
    requires n <= |times|
    ensures Entry(times + [now], n, window) == Entry(times, n, window)
  {
    if n > 0 { EntryOfPrefix(times, now, n - 1, window); }
  }

  // ---------------------------------------------------------------------------
  // The limiter in Redis
  // ---------------------------------------------------------------------------

  datatype CounterKey = CounterKey(key: string, bucket: nat)

  class RedisLimiter {
    const limit: nat
    const window: real
    /** Server keys, including those whose time has run out. */
    var counters: map<CounterKey, Window>

    ghost var calls: map<string, seq<real>>

    /** A bucket's counter outlives the bucket, so it holds every call made in it. */
    ghost predicate Valid()
      reads this
    {
      window >= 1.0 && forall c :: CounterHolds(counters, calls, c, window)
    }

    constructor (limit: nat, window: real)
      requires window >= 1.0
      ensures Valid() && calls == map[] && this.limit == limit && this.window == window
    {
      this.limit, this.window := limit, window;
      counters, calls := map[], map[];
    }

    ghost function CallsOn(key: string): seq<real>
      reads this
    {
      if key in calls then calls[key] else []
    }

    /** INCR and EXPIRE in one transaction: the counter is renewed to one second past a full window. */
    method Check(key: string, limit: Option<nat>, now: real) returns (admitted: bool)
      requires Valid() && now >= 0.0
      modifies this
      ensures Valid() && calls == old(calls)[key := old(CallsOn(key)) + [now]]
      ensures var maximum := if limit.Some? && limit.value != 0 then limit.value else this.limit;
              admitted <==> RedisCount(calls[key], |calls[key]| - 1, window) <= maximum
    {
      var maximum := Maximum(limit, this.limit);
      var name := CounterKey(key, Bucket(now, window));
      var live := name in counters && counters[name].expires > now;
      var count := (if live then counters[name].count else 0) + 1;
      ghost var counters0, calls0 := counters, calls;
      counters := counters[name := Window(count, now + window + 1.0)];
      calls := calls[key := CallsOn(key) + [now]];
      forall c ensures CounterHolds(counters, calls, c, window) {
        assert CounterHolds(counters0, calls0, name, window) && CounterHolds(counters0, calls0, c, window);
        CounterStep(counters0, calls0, c, key, now, window);
      }
      assert CounterHolds(counters, calls, name, window);
      admitted := count <= maximum;
    }
  }

  function BucketEnd(bucket: nat, window: real): real {
    if bucket == 0 then window else BucketEnd(bucket - 1, window) + window
  }

  /** A counter is there exactly when its bucket was hit, counts the hits, and expires after the bucket's end. */
  ghost predicate CounterHolds(counters: map<CounterKey, Window>, calls: map<string, seq<real>>, c: CounterKey, window: real)
    requires window >= 1.0
  {
    var hits := if c.key in calls then HitsIn(calls[c.key], |calls[c.key]|, c.bucket, window) else 0;
    if hits == 0 then c !in counters
    else c in counters && counters[c].count == hits && counters[c].expires > BucketEnd(c.bucket, window)
  }

  lemma CounterStep(counters: map<CounterKey, Window>, calls: map<string, seq<real>>, c: CounterKey, key: string, now: real, window: real)
    requires window >= 1.0 && now >= 0.0 && CounterHolds(counters, calls, c, window)
    requires CounterHolds(counters, calls, CounterKey(key, Bucket(now, window)), window)
    ensures var name := CounterKey(key, Bucket(now, window));
            var before := if key in calls then calls[key] else [];
            var live := name in counters && counters[name].expires > now;
            var count := (if live then counters[name].count else 0) + 1;
            CounterHolds(counters[name := Window(count, now + window + 1.0)], calls[key := before + [now]], c, window)
  {
    var before := if key in calls then calls[key] else [];
    InBucket(now, window);
    HitsOfPrefix(before, now, |before|, c.bucket, window);
  }

  lemma {:induction false} InBucket(now: real, window: real)
    requires window >= 1.0 && now >= 0.0
    ensures now < BucketEnd(Bucket(now, window), window) <= now + window
    decreases now
  {
    if now >= window { InBucket(now - window, window); }
  }

  lemma {:induction false} HitsOfPrefix(times: seq<real>, now: real, n: nat, bucket: nat, window: real)
    requires n <= |times| && window >= 1.0
    ensures HitsIn(times + [now], n, bucket, window) == HitsIn(times, n, bucket, window)
  {
    if n > 0 { HitsOfPrefix(times, now, n - 1, bucket, window); }
  }

  // ---------------------------------------------------------------------------
  // How many calls get through
  // ---------------------------------------------------------------------------

  /** Calls among [p, q) that count to no more than the maximum. */
  function Admitted(counts: seq<nat>, p: nat, q: nat, maximum: nat): nat
    requires p <= q <= |counts|
  {
    if p == q then 0 else Admitted(counts, p, q - 1, maximum) + (if counts[q - 1] <= maximum then 1 else 0)
  }

  /** From p to q the counter only goes up. */
  ghost predicate OneRun(counts: seq<nat>, p: nat, q: nat) {
    q <= |counts| && forall i :: p < i < q ==> counts[i] == counts[i - 1] + 1
  }

  lemma {:induction false} RunLevel(counts: seq<nat>, p: nat, q: nat, i: nat)
    requires OneRun(counts, p, q) && p <= i < q
    ensures counts[i] == counts[p] + (i - p)
  {
    if i > p { RunLevel(counts, p, q, i - 1); }
  }

  lemma {:induction false} AdmittedAtMostLength(counts: seq<nat>, p: nat, q: nat, maximum: nat)
    requires p <= q <= |counts|
    ensures Admitted(counts, p, q, maximum) <= q - p
  {
    if p < q { AdmittedAtMostLength(counts, p, q - 1, maximum); }
  }

  /** One window lets at most the maximum through. */
  lemma {:induction false} RunAdmits(counts: seq<nat>, p: nat, q: nat, maximum: nat)
    requires p <= q && OneRun(counts, p, q) && forall i :: 0 <= i < |counts| ==> counts[i] > 0
    ensures Admitted(counts, p, q, maximum) <= maximum
    ensures p < q && counts[p] > 1 ==> Admitted(counts, p, q, maximum) <= if maximum > 0 then maximum - 1 else 0
  {
    if p < q {
      RunAdmits(counts, p, q - 1, maximum);
      if counts[q - 1] <= maximum {
        RunLevel(counts, p, q, q - 1);
        AdmittedAtMostLength(counts, p, q, maximum);
      }
    }
  }

  lemma {:induction false} AdmittedSplit(counts: seq<nat>, p: nat, m: nat, q: nat, maximum: nat)
    requires p <= m <= q <= |counts|
    ensures Admitted(counts, p, q, maximum) == Admitted(counts, p, m, maximum) + Admitted(counts, m, q, maximum)
  {
    if m < q { AdmittedSplit(counts, p, m, q - 1, maximum); }
  }

  /** A stretch with at most one restart lets at most twice the maximum through. */
  lemma TwoRunsAdmit(counts: seq<nat>, p: nat, m: nat, q: nat, maximum: nat)
    requires p <= m <= q && OneRun(counts, p, m) && OneRun(counts, m, q)
    requires forall i :: 0 <= i < |counts| ==> counts[i] > 0
    ensures Admitted(counts, p, q, maximum) <= 2 * maximum
    ensures m == p || m == q || counts[p] > 1 ==> Admitted(counts, p, q, maximum) <= if maximum > 0 then 2 * maximum - 1 else 0
  {
    AdmittedSplit(counts, p, m, q, maximum);
    RunAdmits(counts, p, m, maximum);
    RunAdmits(counts, m, q, maximum);
  }

  function MemoryCounts(times: seq<real>, window: real): (r: seq<nat>)
    ensures |r| == |times| && forall i :: 0 <= i < |r| ==> r[i] == MemoryCount(times, i, window)
  {
    seq(|times|, i requires 0 <= i < |times| => MemoryCount(times, i, window))
  }

  function RedisCounts(times: seq<real>, window: real): (r: seq<nat>)
    requires window >= 1.0
    ensures |r| == |times| && forall i :: 0 <= i < |r| ==> r[i] == RedisCount(times, i, window)
  {
    seq(|times|, i requires 0 <= i < |times| => RedisCount(times, i, window))
  }

  predicate Within(times: seq<real>, p: nat, q: nat, a: real, window: real)
    requires p <= q <= |times|
  {
    forall i :: p <= i < q ==> a <= times[i] < a + window
  }

  /** First call from p on that restarts the window in memory; the window before it began before the interval. */
  lemma MemoryRestart(times: seq<real>, p: nat, q: nat, a: real, window: real) returns (m: nat)
    requires p <= q <= |times| && Within(times, p, q, a, window)
    ensures p <= m <= q && OneRun(MemoryCounts(times, window), p, m)
    ensures m < q ==> m > p && Entry(times, m, window).value.expires <= times[m] && MemoryCount(times, p, window) > 1
  {
    m := if p < q then p + 1 else p;
    while m < q && Entry(times, m, window).value.expires > times[m]
      invariant p <= m <= q && (p < q ==> p < m)
      invariant p < q ==> Entry(times, m, window).value.expires == Entry(times, p + 1, window).value.expires
      invariant OneRun(MemoryCounts(times, window), p, m)
    {
      m := m + 1;
    }
  }

  /** Once a window starts inside an interval of its own length, it lasts to the interval's end. */
  lemma {:induction false} MemoryHolds(times: seq<real>, m: nat, n: nat, window: real)
    requires m < n <= |times| && Nondecreasing(times)
    requires m > 0 ==> Entry(times, m, window).value.expires <= times[m]
    requires forall i :: m <= i < n ==> times[i] < times[m] + window
    ensures Entry(times, n, window) == Some(Window(n - m, times[m] + window))
    ensures OneRun(MemoryCounts(times, window), m, n)
  {
    if n > m + 1 { MemoryHolds(times, m, n - 1, window); }
  }

  /** In memory: any interval of one window's length admits fewer than twice the maximum. */
  lemma MemoryBound(times: seq<real>, p: nat, q: nat, a: real, window: real, maximum: nat)
    requires Nondecreasing(times) && p <= q <= |times| && Within(times, p, q, a, window) && maximum > 0
    ensures Admitted(MemoryCounts(times, window), p, q, maximum) <= 2 * maximum - 1
  {
    var m := MemoryRestart(times, p, q, a, window);
    if m < q {
      MemoryHolds(times, m, q, window);
    }
    TwoRunsAdmit(MemoryCounts(times, window), p, m, q, maximum);
  }

  /** A refused call comes after the maximum of admitted calls in its own window. */
  lemma RefusedOnlyWhenFull(counts: seq<nat>, p: nat, i: nat, maximum: nat)
    requires p <= i < |counts| && OneRun(counts, p, i + 1) && counts[p] == 1 && counts[i] > maximum
    ensures Admitted(counts, p, i, maximum) == maximum
  {
    RunLevel(counts, p, i + 1, i);
    RunLevel(counts, p, i + 1, p + maximum);
    AllAdmitted(counts, p, p + maximum, i + 1, maximum);
    NoneAdmitted(counts, p, p + maximum, i, i + 1, maximum);
    AdmittedSplit(counts, p, p + maximum, i, maximum);
  }

  lemma {:induction false} AllAdmitted(counts: seq<nat>, p: nat, m: nat, q: nat, maximum: nat)
    requires p <= m <= p + maximum && m <= q && p < q && OneRun(counts, p, q) && counts[p] == 1
    ensures Admitted(counts, p, m, maximum) == m - p
  {
    if m > p {
      AllAdmitted(counts, p, m - 1, q, maximum);
      RunLevel(counts, p, q, m - 1);
    }
  }

  lemma {:induction false} NoneAdmitted(counts: seq<nat>, p: nat, m: nat, n: nat, q: nat, maximum: nat)
    requires p + maximum == m <= n <= q && p < q && OneRun(counts, p, q) && counts[p] == 1
    ensures Admitted(counts, m, n, maximum) == 0
  {
    if m < n {
      NoneAdmitted(counts, p, m, n - 1, q, maximum);
      RunLevel(counts, p, q, n - 1);
    }
  }

  // ---------------------------------------------------------------------------
  // The bound in Redis
  // ---------------------------------------------------------------------------

  lemma {:induction false} BucketMonotone(s: real, t: real, window: real)
    requires window >= 1.0 && s <= t
    ensures Bucket(s, window) <= Bucket(t, window)
    ensures t < s + window ==> Bucket(t, window) <= Bucket(s, window) + 1
    decreases t
  {
    if s >= window {
      BucketMonotone(s - window, t - window, window);
    } else if t >= window && t < s + window {
      assert Bucket(t - window, window) == 0;
    }
  }

  /** In Redis: any interval of one window's length admits at most twice the maximum. */
  lemma RedisBound(times: seq<real>, p: nat, q: nat, a: real, window: real, maximum: nat)
    requires window >= 1.0 && Nondecreasing(times) && p <= q <= |times| && Within(times, p, q, a, window)
    ensures Admitted(RedisCounts(times, window), p, q, maximum) <= 2 * maximum
  {
    var counts := RedisCounts(times, window);
    var m := p;
    while m < q && Bucket(times[m], window) == Bucket(times[p], window)
      invariant p <= m <= q
      invariant forall i :: p <= i < m ==> Bucket(times[i], window) == Bucket(times[p], window)
    {
      m := m + 1;
    }
    forall i | p < i < m ensures counts[i] == counts[i - 1] + 1 {
    }
    forall i | m < i < q ensures counts[i] == counts[i - 1] + 1 {
      BucketMonotone(times[p], times[m], window);
      BucketMonotone(times[m], times[i - 1], window);
      BucketMonotone(times[i - 1], times[i], window);
      BucketMonotone(times[p], times[i], window);
    }
    TwoRunsAdmit(counts, p, m, q, maximum);
  }

  // ---------------------------------------------------------------------------
  // Both bounds are reached
  // ---------------------------------------------------------------------------

  /** One call opens a window, the rest of the maximum comes later in it, a second maximum when it ends. */
  function MemoryBurst(maximum: nat, window: real): (times: seq<real>)
    requires maximum > 0
    ensures |times| == 2 * maximum
  {
    seq(2 * maximum, i => if i == 0 then 0.0 else if i < maximum then window / 2.0 else window)
  }

  /** For every maximum and window: an interval of one window's length that admits twice the maximum less one. */
  lemma MemoryBoundIsReached(maximum: nat, window: real)
    requires maximum > 0 && window > 0.0
    ensures var times := MemoryBurst(maximum, window);
            && Nondecreasing(times) && Within(times, 1, |times|, window / 2.0, window)
            && Admitted(MemoryCounts(times, window), 1, |times|, maximum) == 2 * maximum - 1
  {
    var times, n := MemoryBurst(maximum, window), 2 * maximum;
    var counts := MemoryCounts(times, window);
    MemoryHolds(times, 0, maximum, window);
    MemoryHolds(times, maximum, n, window);
    MemoryHolds(times, maximum, maximum + 1, window);
    AllAdmitted(counts, 0, maximum, maximum, maximum);
    AllAdmitted(counts, 0, 1, maximum, maximum);
    AllAdmitted(counts, maximum, n, n, maximum);
    AdmittedSplit(counts, 0, 1, maximum, maximum);
    AdmittedSplit(counts, 1, maximum, n, maximum);
  }

  /** The maximum in the middle of the first bucket and again at the start of the second. */
  function RedisBurst(maximum: nat, window: real): (times: seq<real>)
    ensures |times| == 2 * maximum
  {
    seq(2 * maximum, i => if i < maximum then window / 2.0 else window)
  }

  lemma {:induction false} NoHitsYet(times: seq<real>, n: nat, bucket: nat, window: real)
    requires n <= |times| && window >= 1.0
    requires forall i :: 0 <= i < n ==> Bucket(times[i], window) != bucket
    ensures HitsIn(times, n, bucket, window) == 0
  {
    if n > 0 { NoHitsYet(times, n - 1, bucket, window); }
  }

  /** Aligned buckets do let twice the maximum through, for every maximum and window. */
  lemma RedisBoundIsReached(maximum: nat, window: real)
    requires window >= 1.0
    ensures var times := RedisBurst(maximum, window);
            && Nondecreasing(times) && Within(times, 0, |times|, window / 2.0, window)
            && Admitted(RedisCounts(times, window), 0, |times|, maximum) == 2 * maximum
  {
    var times, n := RedisBurst(maximum, window), 2 * maximum;
    var counts := RedisCounts(times, window);
    if maximum > 0 {
      assert Bucket(window / 2.0, window) == 0 && Bucket(window, window) == 1 + Bucket(0.0, window);
      NoHitsYet(times, maximum, 1, window);
      NoHitsYet(times, 0, 0, window);
      forall i | 0 < i < n && i != maximum ensures counts[i] == counts[i - 1] + 1 {
      }
      AllAdmitted(counts, 0, maximum, maximum, maximum);
      AllAdmitted(counts, maximum, n, n, maximum);
      AdmittedSplit(counts, 0, maximum, n, maximum);
    }
  }

  // ---------------------------------------------------------------------------
  // What the counters count, from the times of the calls alone
  // ---------------------------------------------------------------------------

  /**
    In memory a call either opens a window, or lies less than one window's
    length behind the call that opened the current one and counts one more than
    the call before it.
   */
  lemma {:induction false} MemoryCountsByWindow(times: seq<real>, i: nat, window: real)
    requires i < |times|
    ensures Entry(times, i + 1, window).value.expires == times[i + 1 - MemoryCount(times, i, window)] + window
    ensures MemoryCount(times, i, window) ==
            if i == 0 || times[i] >= times[i - MemoryCount(times, i - 1, window)] + window then 1
            else MemoryCount(times, i - 1, window) + 1
  {
    if i > 0 { MemoryCountsByWindow(times, i - 1, window); }
  }

  /** The calls up to the i-th that lie in the same aligned bucket. */
  ghost function SameBucket(times: seq<real>, i: nat, window: real): set<nat>
    requires i < |times| && window >= 1.0
  {
    set j: nat | j <= i && (times[j] / window).Floor == (times[i] / window).Floor
  }

  ghost function HitSet(times: seq<real>, n: nat, bucket: nat, window: real): set<nat>
    requires n <= |times| && window >= 1.0
  {
    set j: nat | j < n && Bucket(times[j], window) == bucket
  }

  lemma {:induction false} HitsAreCounted(times: seq<real>, n: nat, bucket: nat, window: real)
    requires n <= |times| && window >= 1.0
    ensures HitsIn(times, n, bucket, window) == |HitSet(times, n, bucket, window)|
  {
    if n > 0 {
      HitsAreCounted(times, n - 1, bucket, window);
      assert HitSet(times, n, bucket, window)
          == HitSet(times, n - 1, bucket, window) + if Bucket(times[n - 1], window) == bucket then {n - 1} else {};
    }
  }

  /** In Redis a call counts the calls so far that lie in the same aligned bucket. */
  lemma RedisCountsByBucket(times: seq<real>, i: nat, window: real)
    requires i < |times| && window >= 1.0 && forall j :: 0 <= j < |times| ==> times[j] >= 0.0
    ensures RedisCount(times, i, window) == |SameBucket(times, i, window)|
  {
    HitsAreCounted(times, i + 1, Bucket(times[i], window), window);
    forall j: nat | j <= i ensures Bucket(times[j], window) == (times[j] / window).Floor {
      BucketIsFloorDivision(times[j], window);
    }
    assert HitSet(times, i + 1, Bucket(times[i], window), window) == SameBucket(times, i, window);
  }
}
