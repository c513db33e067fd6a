/** Instants of a run and how many of them fall in an interval. */
module TimeSeries {
  /** The elements of `ts` that lie in the closed interval. */
  function Between(ts: seq<nat>, a: int, b: int): seq<nat> {
    if ts == [] then []
    else Between(ts[..|ts| - 1], a, b) + (if a <= ts[|ts| - 1] <= b then [ts[|ts| - 1]] else [])
  }

  lemma BetweenAppend(ts: seq<nat>, t: nat, a: int, b: int)
    ensures Between(ts + [t], a, b) == Between(ts, a, b) + (if a <= t <= b then [t] else [])
  {
    assert (ts + [t])[..|ts|] == ts;
  }

  lemma NoInstants(a: int, b: int)
    ensures Between([], a, b) == []
  {
  }

  /** A wider interval holds at least as many instants. */
  lemma {:induction false} BetweenMonotone(ts: seq<nat>, a: int, b: int, a': int, b': int)
    requires a' <= a && b <= b'
    ensures |Between(ts, a, b)| <= |Between(ts, a', b')|
    decreases |ts|
  {
    if ts != [] {
      BetweenMonotone(ts[..|ts| - 1], a, b, a', b');
    }
  }

  /** Instants up to `high` are counted the same with any end from there on. */
  lemma {:induction false} BetweenEnd(ts: seq<nat>, a: int, b: int, high: int)
    requires high <= b && forall i :: 0 <= i < |ts| ==> ts[i] <= high
    ensures Between(ts, a, b) == Between(ts, a, high)
    decreases |ts|
  {
    if ts != [] {
      BetweenEnd(ts[..|ts| - 1], a, b, high);
    }
  }

  /** Cutting an interval in two counts every instant once. */
  lemma {:induction false} BetweenSplit(ts: seq<nat>, a: int, m: int, b: int)
    requires a <= m <= b + 1
    ensures |Between(ts, a, b)| == |Between(ts, a, m - 1)| + |Between(ts, m, b)|
    decreases |ts|
  {
    if ts != [] {
      BetweenSplit(ts[..|ts| - 1], a, m, b);
    }
  }
}
