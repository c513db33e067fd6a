/** The in-memory sliding-window limiter (`InMemoryRateLimiter::check`). Instants are nanoseconds. */
module RateLimiter {
  import opened TimeSeries
  import opened Timestamps

  datatype Call = Call(key: string, limit: nat, windowSec: nat, now: nat)

  datatype Status = Status(allowed: bool, current: nat)

  function WindowOf(windowSec: nat): nat {
    (if windowSec == 0 then 1 else windowSec) * NANOS
  }

  /** `retain` on a bucket. */
  function Retained(ts: seq<nat>, now: nat, window: nat): seq<nat> {
    if ts == [] then []
    else Retained(ts[..|ts| - 1], now, window) +
         (if Since(now, ts[|ts| - 1]) <= window then [ts[|ts| - 1]] else [])
  }

  type Buckets = map<string, seq<nat>>

  function Bucket(buckets: Buckets, key: string): seq<nat> {
    if key in buckets then buckets[key] else []
  }

  function Checked(buckets: Buckets, c: Call): (Buckets, Status) {
    var entries := Retained(Bucket(buckets, c.key), c.now, WindowOf(c.windowSec));
    var allowed := |entries| < c.limit;
    (buckets[c.key := if allowed then entries + [c.now] else entries],
     Status(allowed, |entries| + if allowed then 1 else 0))
  }

  class InMemoryRateLimiter {
    var buckets: Buckets

    constructor ()
      ensures buckets == map[]
    {
      buckets := map[];
    }

    method Check(c: Call) returns (status: Status)
      modifies this
      ensures (buckets, status) == Checked(old(buckets), c)
    {
      var window := WindowOf(c.windowSec);
      var bucket := Bucket(buckets, c.key);
      var entries: seq<nat> := [];
      for i := 0 to |bucket|
        invariant entries == Retained(bucket[..i], c.now, window)
      {
        if Since(c.now, bucket[i]) <= window {
          entries := entries + [bucket[i]];
        }
        assert bucket[..i + 1][..i] == bucket[..i];
      }
      assert bucket[..|bucket|] == bucket;
      var current := |entries|;
      var allowed := current < c.limit;
      if allowed {
        entries := entries + [c.now];
      }
      buckets := buckets[c.key := entries];
      status := Status(allowed, current + if allowed then 1 else 0);
    }
  }

  // ---------------------------------------------------------------- runs

  /** The calls in the order in which they get the lock; each has read the clock before it asked for it. */
  function After(cs: seq<Call>): Buckets {
    if cs == [] then map[] else Checked(After(cs[..|cs| - 1]), cs[|cs| - 1]).0
  }

  function StatusOf(cs: seq<Call>, i: nat): Status
    requires i < |cs|
  {
    Checked(After(cs[..i]), cs[i]).1
  }

  predicate AllowedAt(cs: seq<Call>, key: string, i: nat)
    requires i < |cs|
  {
    cs[i].key == key && StatusOf(cs, i).allowed
  }

  /** Every allowed hit on `key` among the first n calls, never pruned. */
  function HitsUpTo(cs: seq<Call>, key: string, n: nat): seq<nat>
    requires n <= |cs|
  {
    if n == 0 then []
    else if AllowedAt(cs, key, n - 1) then HitsUpTo(cs, key, n - 1) + [cs[n - 1].now]
    else HitsUpTo(cs, key, n - 1)
  }

  /** No call on the key after the i-th, and before the m-th, is more than its window later. */
  predicate Lasts(cs: seq<Call>, i: nat, m: nat)
    requires i < m <= |cs|
  {
    forall k :: i < k < m && cs[k].key == cs[i].key ==>
      cs[k].now <= cs[i].now + (if cs[k].windowSec == 0 then 1 else cs[k].windowSec) * 1_000_000_000
  }

  /** The allowed hits among the first n calls that the calls before the m-th have left in the bucket. */
  function Survivors(cs: seq<Call>, key: string, n: nat, m: nat): seq<nat>
    requires n <= m <= |cs|
  {
    if n == 0 then []
    else if AllowedAt(cs, key, n - 1) && Lasts(cs, n - 1, m) then Survivors(cs, key, n - 1, m) + [cs[n - 1].now]
    else Survivors(cs, key, n - 1, m)
  }

  lemma LastCall(cs: seq<Call>, key: string, m: nat)
    requires m < |cs|
    ensures var c, allowed := cs[m], StatusOf(cs, m).allowed;
            var before := Bucket(After(cs[..m]), key);
            var kept := Retained(before, c.now, WindowOf(c.windowSec));
            && Bucket(After(cs[..m + 1]), key) ==
                 (if c.key != key then before else if allowed then kept + [c.now] else kept)
            && (c.key == key ==>
                  StatusOf(cs, m) == Status(|kept| < c.limit, |kept| + if |kept| < c.limit then 1 else 0))
  {
    assert cs[..m + 1][..m] == cs[..m];
  }

  lemma RetainedAppend(ts: seq<nat>, t: nat, now: nat, window: nat)
    ensures Retained(ts + [t], now, window) == Retained(ts, now, window) + (if Since(now, t) <= window then [t] else [])
  {
    assert (ts + [t])[..|ts|] == ts;
  }

  lemma LastsStep(cs: seq<Call>, i: nat, m: nat)
    requires i < m < |cs|
    ensures Lasts(cs, i, m + 1) <==>
            Lasts(cs, i, m) && (cs[m].key == cs[i].key ==> Since(cs[m].now, cs[i].now) <= WindowOf(cs[m].windowSec))
  {
  }

  lemma {:induction false} SurvivorsStep(cs: seq<Call>, key: string, n: nat, m: nat)
    requires n <= m < |cs|
    ensures Survivors(cs, key, n, m + 1) ==
            if cs[m].key != key then Survivors(cs, key, n, m)
            else Retained(Survivors(cs, key, n, m), cs[m].now, WindowOf(cs[m].windowSec))
    decreases n
  {
    hide StatusOf;
    hide Lasts;
    hide WindowOf;
    hide Since;
    if n == 0 {
      assert Retained([], cs[m].now, WindowOf(cs[m].windowSec)) == [];
    } else {
      hide Retained;
      var before, i := Survivors(cs, key, n - 1, m), n - 1;
      SurvivorsStep(cs, key, i, m);
      LastsStep(cs, i, m);
      RetainedAppend(before, cs[i].now, cs[m].now, WindowOf(cs[m].windowSec));
    }
  }

  /** The bucket holds exactly the hits that have lasted. */
  lemma {:induction false} BucketIs(cs: seq<Call>, key: string, m: nat)
    requires m <= |cs|
    ensures Bucket(After(cs[..m]), key) == Survivors(cs, key, m, m)
    decreases m
  {
    if m > 0 {
      BucketIs(cs, key, m - 1);
      SurvivorsStep(cs, key, m - 1, m - 1);
      LastCall(cs, key, m - 1);
    }
  }

  /**
   In every run, in whatever order clock readings get the lock: a hit is allowed exactly when
   fewer than `limit` earlier allowed hits have been within the window of every call since,
   this one included.
   */
  lemma AllowedIff(cs: seq<Call>, j: nat)
    requires j < |cs|
    ensures var c, recent := cs[j], |Survivors(cs, cs[j].key, j, j + 1)|;
            StatusOf(cs, j) == Status(recent < c.limit, recent + if recent < c.limit then 1 else 0)
  {
    BucketIs(cs, cs[j].key, j);
    SurvivorsStep(cs, cs[j].key, j, j);
    LastCall(cs, cs[j].key, j);
  }

  // ---------------------------------------------------------------- intervals

  /** A key is always checked with the same window. */
  ghost predicate OneWindow(cs: seq<Call>, key: string, window: nat) {
    forall i :: 0 <= i < |cs| && cs[i].key == key ==>
      window == (if cs[i].windowSec == 0 then 1 else cs[i].windowSec) * 1_000_000_000
  }

  /** A call gets the lock before another only if its clock reading is less than `d` later. */
  ghost predicate WithinDisorder(cs: seq<Call>, key: string, d: nat) {
    forall i, j :: 0 <= i < j < |cs| && cs[i].key == key && cs[j].key == key ==> cs[i].now <= cs[j].now + d
  }

  lemma {:induction false} InOrderSurvivors(cs: seq<Call>, key: string, window: nat, n: nat, j: nat)
    requires n <= j < |cs| && cs[j].key == key && OneWindow(cs, key, window) && WithinDisorder(cs, key, 0)
    ensures Survivors(cs, key, n, j + 1) == Between(HitsUpTo(cs, key, n), cs[j].now - window, cs[j].now)
    decreases n
  {
    hide StatusOf;
    if n > 0 {
      var i := n - 1;
      InOrderSurvivors(cs, key, window, i, j);
      BetweenAppend(HitsUpTo(cs, key, i), cs[i].now, cs[j].now - window, cs[j].now);
      if cs[i].key == key {
        assert cs[i].now <= cs[j].now + 0;
        assert Lasts(cs, i, j + 1) <==> cs[j].now - window <= cs[i].now;
      }
    }
  }

  /** Calls that get the lock in clock order are judged by the allowed hits of the window that ends with them. */
  lemma InOrderAllowedIff(cs: seq<Call>, j: nat, window: nat)
    requires j < |cs| && OneWindow(cs, cs[j].key, window) && WithinDisorder(cs, cs[j].key, 0)
    ensures var c, recent := cs[j], |Between(HitsUpTo(cs, cs[j].key, j), cs[j].now - window, cs[j].now)|;
            StatusOf(cs, j) == Status(recent < c.limit, recent + if recent < c.limit then 1 else 0)
  {
    InOrderSurvivors(cs, cs[j].key, window, j, j);
    AllowedIff(cs, j);
  }

  /** The hits of an interval shorter than the window by the disorder all last to its end. */
  lemma {:induction false} IntervalSurvives(cs: seq<Call>, key: string, window: nat, d: nat, a: int, n: nat, j: nat)
    requires n <= j < |cs| && cs[j].key == key && OneWindow(cs, key, window) && WithinDisorder(cs, key, d)
    requires cs[j].now <= a + window - d
    ensures |Between(HitsUpTo(cs, key, n), a, a + window - d)| <= |Survivors(cs, key, n, j + 1)|
    decreases n
  {
    hide StatusOf;
    hide Between;
    if n == 0 {
      NoInstants(a, a + window - d);
    } else {
      var i := n - 1;
      IntervalSurvives(cs, key, window, d, a, i, j);
      BetweenAppend(HitsUpTo(cs, key, i), cs[i].now, a, a + window - d);
      if cs[i].key == key && a <= cs[i].now {
        forall k | i < k < j + 1 && cs[k].key == key
          ensures Since(cs[k].now, cs[i].now) <= WindowOf(cs[k].windowSec)
        {
          assert k < j ==> cs[k].now <= cs[j].now + d;
        }
      }
    }
  }

  /**
   In every run whose lock order is off the clock by at most `d`, any closed interval shorter
   than the window by `d` holds at most `most` allowed hits of a key; with calls in clock
   order, any interval as long as the window.
   */
  lemma {:induction false} SlidingBound(cs: seq<Call>, key: string, window: nat, most: nat, d: nat, a: int, n: nat)
    requires n <= |cs| && OneWindow(cs, key, window) && WithinDisorder(cs, key, d)
    requires forall i :: 0 <= i < |cs| && cs[i].key == key ==> cs[i].limit <= most
    ensures |Between(HitsUpTo(cs, key, n), a, a + window - d)| <= most
    decreases n
  {
    hide StatusOf;
    hide Between;
    hide Survivors;
    if n == 0 {
      NoInstants(a, a + window - d);
    } else {
      var i := n - 1;
      SlidingBound(cs, key, window, most, d, a, i);
      BetweenAppend(HitsUpTo(cs, key, i), cs[i].now, a, a + window - d);
      if AllowedAt(cs, key, i) && a <= cs[i].now <= a + window - d {
        IntervalSurvives(cs, key, window, d, a, i, i);
        AllowedIff(cs, i);
      }
    }
  }

  // ---------------------------------------------------------------- a limit of one

  ghost predicate LimitOne(cs: seq<Call>, key: string) {
    forall i :: 0 <= i < |cs| && cs[i].key == key ==> cs[i].limit == 1
  }

  lemma {:induction false} SurvivorIn(cs: seq<Call>, key: string, n: nat, m: nat, i: nat)
    requires i < n <= m <= |cs| && AllowedAt(cs, key, i) && Lasts(cs, i, m)
    ensures Survivors(cs, key, n, m) != []
    decreases n
  {
    hide StatusOf;
    if i < n - 1 {
      SurvivorIn(cs, key, n - 1, m, i);
    }
  }

  lemma {:induction false} SurvivorOf(cs: seq<Call>, key: string, n: nat, m: nat) returns (i: nat)
    requires n <= m <= |cs| && Survivors(cs, key, n, m) != []
    ensures i < n && AllowedAt(cs, key, i) && Lasts(cs, i, m)
    decreases n
  {
    hide StatusOf;
    if AllowedAt(cs, key, n - 1) && Lasts(cs, n - 1, m) {
      i := n - 1;
    } else {
      i := SurvivorOf(cs, key, n - 1, m);
    }
  }

  /** With a limit of one, a call is allowed exactly when no allowed hit has lasted. */
  lemma LimitOneAllowed(cs: seq<Call>, key: string, j: nat)
    requires j < |cs| && cs[j].key == key && LimitOne(cs, key)
    ensures AllowedAt(cs, key, j) <==> forall i :: 0 <= i < j && AllowedAt(cs, key, i) ==> !Lasts(cs, i, j + 1)
  {
    AllowedIff(cs, j);
    hide StatusOf;
    if Survivors(cs, key, j, j + 1) != [] {
      var i := SurvivorOf(cs, key, j, j + 1);
    } else {
      forall i | 0 <= i < j && AllowedAt(cs, key, i) ensures !Lasts(cs, i, j + 1) {
        if Lasts(cs, i, j + 1) {
          SurvivorIn(cs, key, j, j + 1, i);
        }
      }
    }
  }

  /** Then any two allowed hits are more than the window apart, in whatever order clock readings get the lock. */
  lemma {:induction false} LimitOneApart(cs: seq<Call>, key: string, window: nat, i: nat, j: nat)
    requires i < j < |cs| && LimitOne(cs, key) && OneWindow(cs, key, window)
    requires AllowedAt(cs, key, i) && AllowedAt(cs, key, j)
    ensures cs[j].now > cs[i].now + window
    decreases j - i
  {
    LimitOneAllowed(cs, key, j);
    hide StatusOf;
    if k :| i < k < j && AllowedAt(cs, key, k) {
      LimitOneApart(cs, key, window, i, k);
      LimitOneApart(cs, key, window, k, j);
    } else if Since(cs[j].now, cs[i].now) <= window {
      var k := FirstOutliving(cs, key, i, j);
      OutlivingAllowed(cs, key, i, k);
    }
  }

  /** A call that outlives the last allowed hit is allowed. */
  lemma OutlivingAllowed(cs: seq<Call>, key: string, i: nat, k: nat)
    requires i < k < |cs| && LimitOne(cs, key) && AllowedAt(cs, key, i) && cs[k].key == key && !Lasts(cs, i, k + 1)
    requires forall h :: i < h < k ==> !AllowedAt(cs, key, h)
    ensures AllowedAt(cs, key, k)
  {
    LimitOneAllowed(cs, key, i);
    LimitOneAllowed(cs, key, k);
    hide StatusOf;
    forall h | 0 <= h < k && AllowedAt(cs, key, h) ensures !Lasts(cs, h, k + 1) {
      assert h < i ==> !Lasts(cs, h, i + 1);
    }
  }

  /** A hit that has not lasted was outlived by some call, other than the last if that is within its window. */
  lemma FirstOutliving(cs: seq<Call>, key: string, i: nat, j: nat) returns (k: nat)
    requires i < j < |cs| && cs[i].key == key && !Lasts(cs, i, j + 1)
    requires cs[j].key == key && Since(cs[j].now, cs[i].now) <= WindowOf(cs[j].windowSec)
    ensures i < k < j && cs[k].key == key && !Lasts(cs, i, k + 1)
  {
    k :| i < k < j + 1 && cs[k].key == key &&
      cs[k].now > cs[i].now + (if cs[k].windowSec == 0 then 1 else cs[k].windowSec) * 1_000_000_000;
  }

  // ---------------------------------------------------------------- the bound is reached

  lemma {:induction false} SurvivorsAtMost(cs: seq<Call>, key: string, n: nat, m: nat)
    requires n <= m <= |cs|
    ensures |Survivors(cs, key, n, m)| <= n
    decreases n
  {
    hide StatusOf;
    if n > 0 {
      SurvivorsAtMost(cs, key, n - 1, m);
    }
  }

  lemma {:induction false} NoneSurvive(cs: seq<Call>, key: string, n: nat, m: nat)
    requires n <= m <= |cs| && forall i :: 0 <= i < n ==> !Lasts(cs, i, m)
    ensures Survivors(cs, key, n, m) == []
    decreases n
  {
    hide StatusOf;
    if n > 0 {
      NoneSurvive(cs, key, n - 1, m);
    }
  }

  lemma {:induction false} AllInInterval(cs: seq<Call>, key: string, n: nat, a: int, b: int)
    requires n <= |cs| && forall i :: 0 <= i < n ==> AllowedAt(cs, key, i) && a <= cs[i].now <= b
    ensures |Between(HitsUpTo(cs, key, n), a, b)| == n
    decreases n
  {
    hide StatusOf;
    if n > 0 {
      AllInInterval(cs, key, n - 1, a, b);
      BetweenAppend(HitsUpTo(cs, key, n - 1), cs[n - 1].now, a, b);
    }
  }

  /** A full bucket, one call past the window, and one that read the clock `d` before it. */
  function LateCall(key: string, limit: nat, windowSec: nat, d: nat): seq<Call>
    requires d <= WindowOf(windowSec) + 1
  {
    seq(limit, _ => Call(key, limit, windowSec, 0)) +
    [Call(key, limit, windowSec, WindowOf(windowSec) + 1), Call(key, limit, windowSec, WindowOf(windowSec) + 1 - d)]
  }

  lemma LateCallAllowed(key: string, limit: nat, windowSec: nat, d: nat, i: nat)
    requires limit >= 2 && 1 <= d <= WindowOf(windowSec) + 1 && i < limit + 2
    ensures AllowedAt(LateCall(key, limit, windowSec, d), key, i)
  {
    var cs := LateCall(key, limit, windowSec, d);
    AllowedIff(cs, i);
    hide StatusOf;
    hide Survivors;
    if i < limit {
      SurvivorsAtMost(cs, key, i, i + 1);
    } else {
      var m := i + 1;
      assert cs[limit].now == WindowOf(windowSec) + 1;
      forall k | 0 <= k < limit ensures !Lasts(cs, k, m) {
        assert Since(cs[limit].now, cs[k].now) > WindowOf(windowSec);
      }
      NoneSurvive(cs, key, limit, m);
      OneMore(cs, key, limit, m);
    }
  }

  lemma OneMore(cs: seq<Call>, key: string, n: nat, m: nat)
    requires n < m <= |cs|
    ensures |Survivors(cs, key, n + 1, m)| <= |Survivors(cs, key, n, m)| + 1
  {
    hide StatusOf;
  }

  lemma LateCallShape(key: string, limit: nat, windowSec: nat, d: nat)
    requires d <= WindowOf(windowSec) + 1
    ensures var cs, window := LateCall(key, limit, windowSec, d), WindowOf(windowSec);
            && |cs| == limit + 2 && (forall i :: 0 <= i < limit ==> cs[i].now == 0)
            && cs[limit].now == window + 1 && cs[limit + 1].now == window + 1 - d
            && OneWindow(cs, key, window) && WithinDisorder(cs, key, d)
  {
  }

  /** No longer interval is bounded by the limit: one nanosecond more and a late call puts one hit too many into it. */
  lemma LateCallExceeds(key: string, limit: nat, windowSec: nat, d: nat)
    requires limit >= 2 && 1 <= d <= WindowOf(windowSec) + 1
    ensures var cs, window := LateCall(key, limit, windowSec, d), WindowOf(windowSec);
            && OneWindow(cs, key, window) && WithinDisorder(cs, key, d)
            && |Between(HitsUpTo(cs, key, |cs|), 0, window - d + 1)| == limit + 1
  {
    var cs, last := LateCall(key, limit, windowSec, d), WindowOf(windowSec) + 1 - d;
    LateCallShape(key, limit, windowSec, d);
    hide StatusOf;
    hide Between;
    hide LateCall;
    hide WindowOf;
    hide OneWindow;
    hide WithinDisorder;
    hide HitsUpTo;
    hide AllowedAt;
    forall i | 0 <= i < limit + 2 ensures AllowedAt(cs, key, i) {
      LateCallAllowed(key, limit, windowSec, d, i);
    }
    LateHits(cs, key, limit, last);
  }

  lemma LateHits(cs: seq<Call>, key: string, n: nat, last: nat)
    requires |cs| == n + 2 && forall i :: 0 <= i < n + 2 ==> AllowedAt(cs, key, i)
    requires (forall i :: 0 <= i < n ==> cs[i].now == 0) && last < cs[n].now && cs[n + 1].now == last
    ensures |Between(HitsUpTo(cs, key, |cs|), 0, last)| == n + 1
  {
    hide StatusOf;
    hide Between;
    AllInInterval(cs, key, n, 0, last);
    BetweenAppend(HitsUpTo(cs, key, n), cs[n].now, 0, last);
    BetweenAppend(HitsUpTo(cs, key, n + 1), cs[n + 1].now, 0, last);
  }
}
