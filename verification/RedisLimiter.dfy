/**
 The Redis fixed-window limiter (`RedisRateLimiter::check`, `redis_rate_limit.lua`).
 Server time is in milliseconds; a key lives up to and including its expiry.
 */
module RedisLimiter {
  import opened TimeSeries

  datatype Counter = Counter(count: nat, expireAt: nat)

  type Store = map<string, Counter>

  function Live(store: Store, key: string, now: nat): nat {
    if key in store && now <= store[key].expireAt then store[key].count else 0
  }

  /** INCR, then EXPIRE when the result is 1; a zero expiry deletes the key at once. */
  function Script(store: Store, key: string, windowSec: nat, now: nat): (Store, nat) {
    var current := Live(store, key, now) + 1;
    if current > 1 then (store[key := Counter(current, store[key].expireAt)], current)
    else if windowSec == 0 then (store - {key}, current)
    else (store[key := Counter(1, now + 1000 * windowSec)], current)
  }

  datatype Status = Status(allowed: bool, current: nat)

  class RedisRateLimiter {
    var store: Store

    constructor ()
      ensures store == map[]
    {
      store := map[];
    }

    method RunScript(key: string, windowSec: nat, now: nat) returns (current: nat)
      modifies this
      ensures (store, current) == Script(old(store), key, windowSec, now)
    {
      current := Live(store, key, now) + 1;
      if current == 1 {
        store := if windowSec == 0 then store - {key} else store[key := Counter(1, now + 1000 * windowSec)];
      } else {
        store := store[key := Counter(current, store[key].expireAt)];
      }
    }

    /** `check`: when EVALSHA errs after the server has run it, the fallback runs the script again. */
    method Check(key: string, limit: nat, windowSec: nat, now: nat, lost: bool, later: nat) returns (status: Status)
      modifies this
      ensures var once := Script(old(store), key, windowSec, now);
              var last := if lost then Script(once.0, key, windowSec, later) else once;
              store == last.0 && status == Status(last.1 <= limit, last.1)
    {
      var result := RunScript(key, windowSec, now);
      if lost {
        result := RunScript(key, windowSec, later);
      }
      status := Status(result <= limit, result);
    }
  }

  // ---------------------------------------------------------------- runs

  /** One execution of the script; `answered` says whether its result reached the caller. */
  datatype Exec = Exec(key: string, limit: nat, windowSec: nat, now: nat, answered: bool)

  function After(es: seq<Exec>): Store {
    if es == [] then map[]
    else var e := es[|es| - 1]; Script(After(es[..|es| - 1]), e.key, e.windowSec, e.now).0
  }

  function CountOf(es: seq<Exec>, i: nat): nat
    requires i < |es|
  {
    Script(After(es[..i]), es[i].key, es[i].windowSec, es[i].now).1
  }

  predicate Admitted(es: seq<Exec>, i: nat)
    requires i < |es|
  {
    es[i].answered && CountOf(es, i) <= es[i].limit
  }

  function AdmittedHits(es: seq<Exec>, key: string): seq<nat> {
    if es == [] then []
    else AdmittedHits(es[..|es| - 1], key) +
         (if es[|es| - 1].key == key && Admitted(es, |es| - 1) then [es[|es| - 1].now] else [])
  }

  ghost predicate Monotone(es: seq<Exec>) {
    forall i, j :: 0 <= i < j < |es| ==> es[i].now <= es[j].now
  }

  ghost predicate Uniform(es: seq<Exec>, key: string, windowSec: nat, most: nat) {
    forall i :: 0 <= i < |es| && es[i].key == key ==> es[i].windowSec == windowSec && es[i].limit <= most
  }

  /** How the last execution changes the counter and the admitted hits of a key. */
  lemma LastExec(es: seq<Exec>, key: string)
    requires es != [] && (es[|es| - 1].key == key ==> es[|es| - 1].windowSec >= 1)
    ensures var n := |es| - 1;
            var front, e := es[..n], es[n];
            && (e.key == key ==> key in After(es) && CountOf(es, n) == After(es)[key].count)
            && (e.key == key && Live(After(front), key, e.now) > 0 ==>
                  After(es)[key] == Counter(After(front)[key].count + 1, After(front)[key].expireAt))
            && (e.key == key && Live(After(front), key, e.now) == 0 ==>
                  After(es)[key] == Counter(1, e.now + 1000 * e.windowSec))
            && (e.key != key ==> (key in After(es) <==> key in After(front)) &&
                                 (key in After(es) ==> After(es)[key] == After(front)[key]))
            && AdmittedHits(es, key) ==
                 (if e.key == key && Admitted(es, n) then AdmittedHits(front, key) + [e.now]
                  else AdmittedHits(front, key))
  {
  }

  // ---------------------------------------------------------------- what is counted

  /** The executions on a key from the a-th up to the b-th. */
  function ExecsOn(es: seq<Exec>, key: string, a: nat, b: nat): nat
    requires a <= b <= |es|
  {
    if a == b then 0 else ExecsOn(es, key, a, b - 1) + if es[b - 1].key == key then 1 else 0
  }

  /** No execution on the key after the o-th, and before the m-th, came later than the o-th's window allows. */
  ghost predicate Covers(es: seq<Exec>, o: nat, m: nat)
    requires o < m <= |es|
  {
    forall k :: o < k < m && es[k].key == es[o].key ==> es[k].now <= es[o].now + 1000 * es[o].windowSec
  }

  ghost predicate Windowed(es: seq<Exec>, key: string) {
    forall i :: 0 <= i < |es| && es[i].key == key ==> es[i].windowSec >= 1
  }

  /** The counter counts since the execution that opened its window, and expires with that window. */
  lemma {:induction false} CounterIs(es: seq<Exec>, key: string, m: nat) returns (o: nat)
    requires m <= |es| && Windowed(es, key) && key in After(es[..m])
    ensures o < m && es[o].key == key && CountOf(es, o) == 1 && Covers(es, o, m)
    ensures After(es[..m])[key] == Counter(ExecsOn(es, key, o, m), es[o].now + 1000 * es[o].windowSec)
    ensures After(es[..m])[key].count >= 1
    decreases m
  {
    var n := m - 1;
    assert es[..m][..n] == es[..n];
    assert CountOf(es[..m], n) == CountOf(es, n);
    LastExec(es[..m], key);
    hide After;
    hide AdmittedHits;
    hide Admitted;
    if es[n].key == key && Live(After(es[..n]), key, es[n].now) == 0 {
      o := n;
      assert ExecsOn(es, key, n, n) == 0;
    } else {
      o := CounterIs(es, key, n);
    }
  }

  /** Every execution is counted since the one that opened its window, which covers all of them. */
  lemma {:induction false} CountIs(es: seq<Exec>, i: nat) returns (o: nat)
    requires i < |es| && Windowed(es, es[i].key)
    ensures o <= i && es[o].key == es[i].key && CountOf(es, o) == 1 && Covers(es, o, i + 1)
    ensures CountOf(es, i) == ExecsOn(es, es[i].key, o, i + 1)
  {
    assert es[..i + 1][..i] == es[..i];
    assert CountOf(es[..i + 1], i) == CountOf(es, i);
    LastExec(es[..i + 1], es[i].key);
    o := CounterIs(es, es[i].key, i + 1);
  }

  /** An execution opens a window exactly when no earlier one still covers it. */
  lemma {:induction false} OpensIff(es: seq<Exec>, i: nat)
    requires i < |es| && Windowed(es, es[i].key)
    ensures CountOf(es, i) == 1 <==>
            forall p :: 0 <= p < i && es[p].key == es[i].key && CountOf(es, p) == 1 ==> !Covers(es, p, i + 1)
    decreases i
  {
    var key := es[i].key;
    var o := CountIs(es, i);
    hide CountOf;
    if o == i {
      assert ExecsOn(es, key, i, i) == 0;
      forall p | 0 <= p < i && es[p].key == key && CountOf(es, p) == 1 ensures !Covers(es, p, i + 1) {
        NotCovered(es, p, i);
      }
    } else {
      MoreThanOne(es, key, o, i);
    }
  }

  lemma {:induction false} MoreThanOne(es: seq<Exec>, key: string, o: nat, i: nat)
    requires o < i < |es| && es[o].key == key && es[i].key == key
    ensures ExecsOn(es, key, o, i + 1) >= 2
    decreases i
  {
    AtLeastOne(es, key, o, i);
  }

  lemma {:induction false} AtLeastOne(es: seq<Exec>, key: string, o: nat, i: nat)
    requires o < i <= |es| && es[o].key == key
    ensures ExecsOn(es, key, o, i) >= 1
    decreases i
  {
    if o < i - 1 {
      AtLeastOne(es, key, o, i - 1);
    }
  }

  lemma {:induction false} KeyStays(es: seq<Exec>, key: string, p: nat, m: nat)
    requires p < m <= |es| && es[p].key == key && Windowed(es, key)
    ensures key in After(es[..m])
    decreases m
  {
    assert es[..m][..m - 1] == es[..m - 1];
    LastExec(es[..m], key);
    if p < m - 1 {
      KeyStays(es, key, p, m - 1);
    }
  }

  lemma OpensAfterExpiry(es: seq<Exec>, i: nat)
    requires i < |es| && es[i].key in After(es[..i]) && After(es[..i])[es[i].key].count >= 1 && CountOf(es, i) == 1
    ensures After(es[..i])[es[i].key].expireAt < es[i].now
  {
  }

  lemma CoversLess(es: seq<Exec>, o: nat, k: nat, m: nat)
    requires o < k <= m <= |es| && Covers(es, o, m)
    ensures Covers(es, o, k)
  {
  }

  /** What opens a window lies outside every window before it. */
  lemma {:induction false} NotCovered(es: seq<Exec>, p: nat, i: nat)
    requires p < i < |es| && es[p].key == es[i].key && Windowed(es, es[p].key)
    requires CountOf(es, p) == 1 && CountOf(es, i) == 1
    ensures !Covers(es, p, i + 1)
    decreases i
  {
    hide CountOf;
    hide After;
    var key := es[p].key;
    KeyStays(es, key, p, i);
    var o := CounterIs(es, key, i);
    OpensAfterExpiry(es, i);
    if Covers(es, p, i + 1) {
      if p < o {
        CoversLess(es, p, o + 1, i + 1);
        NotCovered(es, p, o);
      } else if o < p {
        CoversLess(es, o, p + 1, i);
        NotCovered(es, o, p);
      }
    }
  }

  function LessOne(n: nat): nat {
    if n == 0 then 0 else n - 1
  }

  /**
   The counter's window starts at `start`, with an execution that takes the first count.
   Hits admitted since then are counted and limited. If the interval from `a` reaches the
   start, it holds fewer than `most` hits from before; and it never holds `2 * most` hits.
   */
  ghost predicate Bounded(hits: seq<nat>, c: Counter, width: nat, most: nat, a: int) {
    var start := c.expireAt - width;
    && c.count >= 1
    && (forall i :: 0 <= i < |hits| ==> hits[i] <= c.expireAt)
    && |Between(hits, start, c.expireAt)| <= c.count && |Between(hits, start, c.expireAt)| <= most
    && |Between(hits, start + 1, c.expireAt)| <= c.count - 1 && |Between(hits, start + 1, c.expireAt)| <= LessOne(most)
    && (start <= a + width ==> |Between(hits, a, start - 1)| <= LessOne(most))
    && |Between(hits, a, a + width)| <= most + LessOne(most)
  }

  /** A further hit at `now` in a running window. */
  lemma SameWindow(hits: seq<nat>, c: Counter, width: nat, most: nat, a: int, now: nat)
    requires Bounded(hits, c, width, most, a)
    requires c.expireAt - width <= now <= c.expireAt && c.count + 1 <= most
    ensures Bounded(hits + [now], c.(count := c.count + 1), width, most, a)
  {
    hide Between;
    var start := c.expireAt - width;
    BetweenAppend(hits, now, start, c.expireAt);
    BetweenAppend(hits, now, start + 1, c.expireAt);
    BetweenAppend(hits, now, a, start - 1);
    BetweenAppend(hits, now, a, a + width);
    if a <= now <= a + width {
      InInterval(hits, c, width, a);
    }
  }

  /** An interval that reaches a window: what it holds from before, and no more than the window's hits. */
  lemma InInterval(hits: seq<nat>, c: Counter, width: nat, a: int)
    requires forall i :: 0 <= i < |hits| ==> hits[i] <= c.expireAt
    requires c.expireAt - width <= a + width && a <= c.expireAt
    ensures var start := c.expireAt - width;
            |Between(hits, a, a + width)| <=
              (if a < start then |Between(hits, a, start - 1)| else 0) + |Between(hits, start, c.expireAt)|
  {
    var start := c.expireAt - width;
    if a < start {
      BetweenSplit(hits, a, start, a + width);
      BetweenMonotone(hits, start, a + width, start, c.expireAt);
    } else {
      BetweenEnd(hits, a, a + width, c.expireAt);
      BetweenMonotone(hits, a, c.expireAt, start, c.expireAt);
    }
  }

  /** A first execution after the window ended; `admitted` says whether it adds a hit. */
  lemma NewWindow(hits: seq<nat>, c: Counter, width: nat, most: nat, a: int, now: nat, admitted: bool)
    requires Bounded(hits, c, width, most, a) && c.expireAt < now
    requires admitted ==> most >= 1
    ensures Bounded(if admitted then hits + [now] else hits, Counter(1, now + width), width, most, a)
  {
    hide Between;
    NoneLater(hits, now, now + width, c.expireAt);
    NoneLater(hits, now + 1, now + width, c.expireAt);
    BetweenAppend(hits, now, now, now + width);
    BetweenAppend(hits, now, now + 1, now + width);
    BetweenAppend(hits, now, a, now - 1);
    BetweenAppend(hits, now, a, a + width);
    if now <= a + width {
      BetweenEnd(hits, a, now - 1, c.expireAt);
      BetweenMonotone(hits, a, c.expireAt, c.expireAt - width + 1, c.expireAt);
      BetweenEnd(hits, a, a + width, c.expireAt);
    }
  }

  lemma {:induction false} NoneLater(hits: seq<nat>, a: int, b: int, high: int)
    requires high < a && forall i :: 0 <= i < |hits| ==> hits[i] <= high
    ensures Between(hits, a, b) == []
    decreases |hits|
  {
    if hits != [] {
      NoneLater(hits[..|hits| - 1], a, b, high);
    }
  }

  lemma FirstWindow(width: nat, most: nat, a: int, now: nat, admitted: bool)
    requires admitted ==> most >= 1
    ensures Bounded(if admitted then [now] else [], Counter(1, now + width), width, most, a)
  {
    hide Between;
    NoInstants(now, now + width);
    NoInstants(now + 1, now + width);
    NoInstants(a, now - 1);
    NoInstants(a, a + width);
    BetweenAppend([], now, now, now + width);
    BetweenAppend([], now, now + 1, now + width);
    BetweenAppend([], now, a, now - 1);
    BetweenAppend([], now, a, a + width);
    assert [] + [now] == [now];
  }

  lemma {:induction false} RunBounded(es: seq<Exec>, key: string, windowSec: nat, most: nat, a: int)
    requires windowSec >= 1 && Monotone(es) && Uniform(es, key, windowSec, most)
    ensures if key in After(es) then
              var c := After(es)[key];
              && Bounded(AdmittedHits(es, key), c, 1000 * windowSec, most, a)
              && (es != [] ==> c.expireAt - 1000 * windowSec <= es[|es| - 1].now)
            else AdmittedHits(es, key) == []
    decreases |es|
  {
    hide After;
    hide AdmittedHits;
    hide Between;
    if es == [] {
      NoExecs(key);
    } else {
      var n, width := |es| - 1, 1000 * windowSec;
      var front, e := es[..n], es[n];
      LastExec(es, key);
      RunBounded(front, key, windowSec, most, a);
      if front == [] {
        NoExecs(key);
      } else {
        assert es[n - 1].now <= e.now;
      }
      if e.key == key {
        var hits, admitted := AdmittedHits(front, key), Admitted(es, n);
        if key !in After(front) {
          FirstWindow(width, most, a, e.now, admitted);
          assert hits + [e.now] == [e.now];
        } else if After(front)[key].expireAt < e.now {
          NewWindow(hits, After(front)[key], width, most, a, e.now, admitted);
        } else if admitted {
          SameWindow(hits, After(front)[key], width, most, a, e.now);
        }
      }
    }
  }

  lemma NoExecs(key: string)
    ensures key !in After([]) && AdmittedHits([], key) == []
  {
  }

  /**
   With a window of at least a second, any interval as long as the window holds fewer
   than twice the limit of admitted hits, whichever executions were lost on the way back.
   */
  lemma FixedWindowBound(es: seq<Exec>, key: string, windowSec: nat, most: nat, a: int)
    requires windowSec >= 1 && Monotone(es) && Uniform(es, key, windowSec, most)
    ensures |Between(AdmittedHits(es, key), a, a + 1000 * windowSec)| <= if most == 0 then 0 else 2 * most - 1
  {
    RunBounded(es, key, windowSec, most, a);
  }

  // ---------------------------------------------------------------- the bound is reached

  function Repeat<T>(x: T, n: nat): seq<T> {
    if n == 0 then [] else Repeat(x, n - 1) + [x]
  }

  lemma AdmitsOne(es: seq<Exec>, e: Exec)
    requires e.answered && e.windowSec >= 1 && e.key in After(es) && After(es)[e.key].count >= 1
    requires e.now <= After(es)[e.key].expireAt && After(es)[e.key].count + 1 <= e.limit
    ensures e.key in After(es + [e]) && After(es + [e])[e.key] == After(es)[e.key].(count := After(es)[e.key].count + 1)
    ensures AdmittedHits(es + [e], e.key) == AdmittedHits(es, e.key) + [e.now]
  {
    assert (es + [e])[..|es|] == es;
    LastExec(es + [e], e.key);
  }

  /** Executions in a running window with room for them are all admitted. */
  lemma {:induction false} BurstAdmitted(es: seq<Exec>, e: Exec, n: nat)
    requires e.answered && e.windowSec >= 1 && e.key in After(es) && After(es)[e.key].count >= 1
    requires e.now <= After(es)[e.key].expireAt && After(es)[e.key].count + n <= e.limit
    ensures var all := es + Repeat(e, n);
            && e.key in After(all)
            && After(all)[e.key] == After(es)[e.key].(count := After(es)[e.key].count + n)
            && AdmittedHits(all, e.key) == AdmittedHits(es, e.key) + Repeat(e.now, n)
  {
    hide After;
    hide AdmittedHits;
    if n == 0 {
      assert es + Repeat(e, n) == es;
    } else {
      BurstAdmitted(es, e, n - 1);
      AdmitsOne(es + Repeat(e, n - 1), e);
      assert es + Repeat(e, n) == es + Repeat(e, n - 1) + [e];
    }
  }

  /** The first execution of a window. */
  lemma OpensWindow(es: seq<Exec>, e: Exec)
    requires e.answered && e.windowSec >= 1 && e.limit >= 1 && Live(After(es), e.key, e.now) == 0
    ensures e.key in After(es + [e]) && After(es + [e])[e.key] == Counter(1, e.now + 1000 * e.windowSec)
    ensures AdmittedHits(es + [e], e.key) == AdmittedHits(es, e.key) + [e.now]
  {
    assert (es + [e])[..|es|] == es;
    LastExec(es + [e], e.key);
  }

  lemma {:induction false} BetweenRepeat(ts: seq<nat>, t: nat, n: nat, a: int, b: int)
    requires a <= t <= b
    ensures |Between(ts + Repeat(t, n), a, b)| == |Between(ts, a, b)| + n
  {
    if n == 0 {
      assert ts + Repeat(t, n) == ts;
    } else {
      BetweenRepeat(ts, t, n - 1, a, b);
      BetweenAppend(ts + Repeat(t, n - 1), t, a, b);
      assert ts + Repeat(t, n) == ts + Repeat(t, n - 1) + [t];
    }
  }

  /** One hit, the rest of the limit as the window ends, a full window straight after. */
  function WorstRun(key: string, limit: nat, windowSec: nat): seq<Exec>
    requires limit >= 1
  {
    var end := 1000 * windowSec;
    var e := Exec(key, limit, windowSec, end, true);
    [e.(now := 0)] + Repeat(e, limit - 1) + [e.(now := end + 1)] + Repeat(e.(now := end + 1), limit - 1)
  }

  lemma {:induction false} RepeatAt<T>(x: T, n: nat)
    ensures |Repeat(x, n)| == n && forall i :: 0 <= i < n ==> Repeat(x, n)[i] == x
  {
    if n > 0 {
      RepeatAt(x, n - 1);
    }
  }

  /** No smaller bound holds, whatever the limit and the window. */
  lemma BoundReached(key: string, limit: nat, windowSec: nat)
    requires limit >= 1 && windowSec >= 1
    ensures var es := WorstRun(key, limit, windowSec);
            && Monotone(es) && Uniform(es, key, windowSec, limit)
            && |Between(AdmittedHits(es, key), 1, 1 + 1000 * windowSec)| == 2 * limit - 1
  {
    hide After;
    hide AdmittedHits;
    hide Between;
    var end: nat := 1000 * windowSec;
    var e := Exec(key, limit, windowSec, end, true);
    var f := e.(now := end + 1);
    RepeatAt(e, limit - 1);
    RepeatAt(f, limit - 1);
    NoExecs(key);
    var one := [e.(now := 0)];
    OpensWindow([], e.(now := 0));
    assert [] + one == one;
    BurstAdmitted(one, e, limit - 1);
    var two := one + Repeat(e, limit - 1);
    OpensWindow(two, f);
    BurstAdmitted(two + [f], f, limit - 1);
    WorstHits(end, limit - 1);
    assert AdmittedHits([], key) + [0] == [0];
    assert WorstRun(key, limit, windowSec) == two + [f] + Repeat(f, limit - 1);
  }

  lemma WorstHits(end: nat, n: nat)
    requires end >= 1
    ensures var late: nat := end + 1;
            |Between([0] + Repeat(end, n) + [late] + Repeat(late, n), 1, late)| == 2 * n + 1
  {
    var late: nat := end + 1;
    var first: seq<nat> := [0];
    var second := first + Repeat(end, n);
    BetweenRepeat(first, end, n, 1, late);
    BetweenAppend(second, late, 1, late);
    BetweenRepeat(second + [late], late, n, 1, late);
  }

  /** A window of zero seconds limits nothing: each execution starts from a fresh counter. */
  lemma {:induction false} ZeroWindowNeverLimits(es: seq<Exec>, i: nat)
    requires i < |es| && forall j :: 0 <= j < |es| ==> es[j].windowSec == 0
    ensures CountOf(es, i) == 1
  {
    ZeroWindowStore(es[..i]);
  }

  lemma {:induction false} ZeroWindowStore(es: seq<Exec>)
    requires forall j :: 0 <= j < |es| ==> es[j].windowSec == 0
    ensures After(es) == map[]
    decreases |es|
  {
    if es != [] {
      ZeroWindowStore(es[..|es| - 1]);
    }
  }
}
