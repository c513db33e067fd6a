/**
 The nonce store and the clock-skew check before it (`InMemoryNonceStore::mark_used`,
 `hmac_security_middleware`). Instants are nanoseconds on one clock.
 */
module ReplayGuard {
  import opened Wrappers
  import opened Timestamps

  const MAX_CLOCK_SKEW_SECONDS: nat := 300
  const MAX_NONCE_TTL_SECONDS: nat := 300

  type Used = map<string, nat>

  function Ttl(ttlSec: nat): nat {
    (if ttlSec == 0 then 1 else ttlSec) * NANOS
  }

  function Pruned(used: Used, ttl: nat, now: nat): Used {
    map k | k in used && Since(now, used[k]) <= ttl :: used[k]
  }

  function Marked(used: Used, key: string, ttl: nat, now: nat): (Used, bool) {
    var kept := Pruned(used, ttl, now);
    if key in kept then (kept, false) else (kept[key := now], true)
  }

  class InMemoryNonceStore {
    var used: Used

    constructor ()
      ensures used == map[]
    {
      used := map[];
    }

    method MarkUsed(key: string, ttlSec: nat, now: nat) returns (unseen: bool)
      modifies this
      ensures (used, unseen) == Marked(old(used), key, (if ttlSec == 0 then 1 else ttlSec) * 1_000_000_000, now)
    {
      used := Pruned(used, Ttl(ttlSec), now);
      if key in used {
        return false;
      }
      used := used[key := now];
      unseen := true;
    }
  }

  // ---------------------------------------------------------------- the nonce store

  /** One call of `mark_used`: the key, and the clock as read before the lock was asked for. */
  datatype Mark = Mark(key: string, now: nat)

  /** The calls in lock order; None stands for something that does not reach the store. */
  type Marks = seq<Option<Mark>>

  function After(ms: Marks, ttl: nat): Used {
    if ms == [] then map[]
    else
      var before := After(ms[..|ms| - 1], ttl);
      match ms[|ms| - 1]
      case None => before
      case Some(m) => Marked(before, m.key, ttl, m.now).0
  }

  /** The i-th call finds its key unused. */
  predicate Fresh(ms: Marks, ttl: nat, i: nat): (unused: bool)
    requires i < |ms|
    ensures unused ==> ms[i].Some?
  {
    ms[i].Some? && Marked(After(ms[..i], ttl), ms[i].value.key, ttl, ms[i].value.now).1
  }

  /** A call after the i-th, and before the m-th, is more than the ttl later. */
  ghost predicate Outlived(ms: Marks, ttl: nat, i: nat, m: nat)
    requires i < m <= |ms| && ms[i].Some?
  {
    exists k :: i < k < m && ms[k].Some? && ms[k].value.now > ms[i].value.now + ttl
  }

  lemma AfterStep(ms: Marks, ttl: nat, m: nat)
    requires m < |ms|
    ensures After(ms[..m + 1], ttl) ==
            match ms[m]
            case None => After(ms[..m], ttl)
            case Some(x) => Marked(After(ms[..m], ttl), x.key, ttl, x.now).0
  {
    assert ms[..m + 1][..m] == ms[..m];
  }

  /** An accepted key stays in the store, with its instant, until a call outlives it. */
  lemma {:induction false} StaysUsed(ms: Marks, ttl: nat, i: nat, m: nat)
    requires i < m <= |ms| && Fresh(ms, ttl, i) && !Outlived(ms, ttl, i, m)
    ensures var used := After(ms[..m], ttl); ms[i].value.key in used && used[ms[i].value.key] == ms[i].value.now
    decreases m
  {
    AfterStep(ms, ttl, m - 1);
    if i < m - 1 {
      StaysUsed(ms, ttl, i, m - 1);
    }
  }

  /** And nothing else is in the store. */
  lemma {:induction false} UsedBy(ms: Marks, ttl: nat, m: nat, key: string) returns (i: nat)
    requires m <= |ms| && key in After(ms[..m], ttl)
    ensures i < m && ms[i].Some? && ms[i].value.key == key && Fresh(ms, ttl, i) && !Outlived(ms, ttl, i, m)
    decreases m
  {
    AfterStep(ms, ttl, m - 1);
    var n := m - 1;
    if ms[n].Some? && ms[n].value.key == key && Fresh(ms, ttl, n) {
      i := n;
    } else {
      i := UsedBy(ms, ttl, n, key);
      StaysUsed(ms, ttl, i, n);
    }
  }

  /**
   In every run, in whatever order clock readings get the lock: a use of a key is accepted
   exactly when each earlier accepted use has been outlived by some call since, this one included.
   */
  lemma FreshIff(ms: Marks, ttl: nat, j: nat)
    requires j < |ms| && ms[j].Some?
    ensures Fresh(ms, ttl, j) <==>
            forall i :: 0 <= i < j && Fresh(ms, ttl, i) && ms[i].value.key == ms[j].value.key ==>
              Outlived(ms, ttl, i, j + 1)
  {
    var x := ms[j].value;
    if Fresh(ms, ttl, j) {
      forall i | 0 <= i < j && Fresh(ms, ttl, i) && ms[i].value.key == x.key ensures Outlived(ms, ttl, i, j + 1) {
        if !Outlived(ms, ttl, i, j) && Since(x.now, ms[i].value.now) <= ttl {
          StaysUsed(ms, ttl, i, j);
        }
      }
    } else {
      var i := UsedBy(ms, ttl, j, x.key);
      StaysUsed(ms, ttl, i, j);
      assert !Outlived(ms, ttl, i, j + 1);
    }
  }

  /** A call gets the lock before another only if its clock reading is at most `d` later. */
  ghost predicate WithinDisorder(ms: Marks, d: nat) {
    forall i, j :: 0 <= i < j < |ms| && ms[i].Some? && ms[j].Some? ==> ms[i].value.now <= ms[j].value.now + d
  }

  /** Two accepted uses of one key are more than the ttl less the disorder apart. */
  lemma FreshApart(ms: Marks, ttl: nat, d: nat, i: nat, j: nat)
    requires WithinDisorder(ms, d) && i < j < |ms|
    requires Fresh(ms, ttl, i) && Fresh(ms, ttl, j) && ms[i].value.key == ms[j].value.key
    ensures ms[j].value.now - ms[i].value.now > ttl - d
  {
    FreshIff(ms, ttl, j);
    assert Outlived(ms, ttl, i, j + 1);
    var k :| i < k < j + 1 && ms[k].Some? && ms[k].value.now > ms[i].value.now + ttl;
    assert k < j ==> ms[k].value.now <= ms[j].value.now + d;
  }

  /** And no more than that: a call on another key that read the clock later can get the lock in between. */
  lemma OvertakenReuse(key: string, other: string, ttl: nat, d: nat)
    requires key != other && d <= ttl + 1
    ensures var ms: Marks := [Some(Mark(key, 0)), Some(Mark(other, ttl + 1)), Some(Mark(key, ttl + 1 - d))];
            WithinDisorder(ms, d) && Fresh(ms, ttl, 0) && Fresh(ms, ttl, 2)
  {
    var ms: Marks := [Some(Mark(key, 0)), Some(Mark(other, ttl + 1)), Some(Mark(key, ttl + 1 - d))];
    FreshIff(ms, ttl, 0);
    assert ms[1].value.now > ms[0].value.now + ttl;
    FreshIff(ms, ttl, 2);
  }

  // ---------------------------------------------------------------- whole requests

  /** A request's nonce key holds service, nonce and timestamp text; `valid` is the HMAC's verdict. */
  datatype Request = Request(key: string, timestamp: nat, valid: bool)

  /** One handling of a request: the clock at the skew check, and again at the nonce store. */
  datatype Arrival = Arrival(req: Request, checked: nat, marked: nat)

  /** `(now - timestamp).num_seconds().abs()`: whole seconds, cut off towards zero. */
  function SkewSeconds(now: nat, timestamp: nat): nat {
    (if now >= timestamp then now - timestamp else timestamp - now) / NANOS
  }

  const NONCE_TTL: nat := Ttl(MAX_NONCE_TTL_SECONDS)

  /** Skew, then signature, then nonce; only a request past the first two reaches the store. */
  function MarkOf(a: Arrival): Option<Mark> {
    if SkewSeconds(a.checked, a.req.timestamp) > MAX_CLOCK_SKEW_SECONDS || !a.req.valid then None
    else Some(Mark(a.req.key, a.marked))
  }

  function MarksOf(run: seq<Arrival>): Marks {
    seq(|run|, i requires 0 <= i < |run| => MarkOf(run[i]))
  }

  /** The i-th arrival, in the order of the nonce store's lock, is let in. */
  predicate Accepted(run: seq<Arrival>, i: nat)
    requires i < |run|
  {
    Fresh(MarksOf(run), NONCE_TTL, i)
  }

  /** At most `wait` passes between an arrival's two clock readings, and the lock order is off by at most `d`. */
  ghost predicate Timely(run: seq<Arrival>, wait: nat, d: nat) {
    && (forall i :: 0 <= i < |run| ==> run[i].checked <= run[i].marked <= run[i].checked + wait)
    && WithinDisorder(MarksOf(run), d)
  }

  /** The last instant at which the skew check lets a timestamp pass. */
  function LastPass(timestamp: nat): nat {
    timestamp + 301 * 1_000_000_000 - 1
  }

  /** A valid signature, and a clock less than 301 seconds before or after the timestamp. */
  predicate Passes(a: Arrival) {
    && a.req.valid && a.checked < a.req.timestamp + 301 * 1_000_000_000
    && a.req.timestamp < a.checked + 301 * 1_000_000_000
  }

  lemma PassesIff(a: Arrival)
    ensures MarkOf(a) == if Passes(a) then Some(Mark(a.req.key, a.marked)) else None
  {
    var now, t := a.checked, a.req.timestamp;
    var skew := if now >= t then now - t else t - now;
    assert skew == NANOS * (skew / NANOS) + skew % NANOS;
    assert skew / NANOS > 300 <==> skew >= 301 * NANOS;
  }

  /** Some arrival after the i-th, up to the j-th, came to the store more than five minutes after it. */
  ghost predicate Forgotten(run: seq<Arrival>, i: nat, j: nat)
    requires i < j < |run|
  {
    exists k :: i < k <= j && Passes(run[k]) && run[k].marked > run[i].marked + 300 * 1_000_000_000
  }

  /**
   In every run: an arrival is let in exactly when its signature is valid, its timestamp within
   the skew, and every earlier arrival let in with the same nonce key has been forgotten.
   */
  lemma AcceptedIff(run: seq<Arrival>, j: nat)
    requires j < |run|
    ensures Accepted(run, j) <==>
            Passes(run[j]) &&
            forall i :: 0 <= i < j && Accepted(run, i) && run[i].req.key == run[j].req.key ==> Forgotten(run, i, j)
  {
    var ms := MarksOf(run);
    assert forall i :: 0 <= i < |run| ==> ms[i] == MarkOf(run[i]);
    forall i | 0 <= i < |run|
      ensures MarkOf(run[i]) == if Passes(run[i]) then Some(Mark(run[i].req.key, run[i].marked)) else None
    {
      PassesIff(run[i]);
    }
    hide MarkOf;
    hide MarksOf;
    hide Passes;
    if Passes(run[j]) {
      FreshIff(ms, NONCE_TTL, j);
      forall i | 0 <= i < j && Accepted(run, i)
        ensures Outlived(ms, NONCE_TTL, i, j + 1) <==> Forgotten(run, i, j)
      {
        if k :| i < k <= j && Passes(run[k]) && run[k].marked > run[i].marked + 300 * 1_000_000_000 {
          OutlivedBy(ms, NONCE_TTL, i, k, j + 1);
        }
        if Outlived(ms, NONCE_TTL, i, j + 1) {
          var k :| i < k < j + 1 && ms[k].Some? && ms[k].value.now > ms[i].value.now + NONCE_TTL;
          assert Passes(run[k]);
        }
      }
    }
  }

  lemma PassesUntil(a: Arrival)
    requires MarkOf(a).Some?
    ensures a.checked <= LastPass(a.req.timestamp)
  {
    var s := SkewSeconds(a.checked, a.req.timestamp);
    assert a.checked >= a.req.timestamp ==> a.checked - a.req.timestamp < (s + 1) * NANOS;
  }

  /**
   In any run a request accepted twice was first marked less than a second after its own
   timestamp, plus what the repeat waited between its two clock readings, plus the disorder.
   */
  lemma RepeatOnlyIfEarly(run: seq<Arrival>, wait: nat, d: nat, i: nat, j: nat)
    requires Timely(run, wait, d) && i < j < |run| && run[i].req == run[j].req
    requires Accepted(run, i) && Accepted(run, j)
    ensures run[j].marked - run[i].marked > 300 * 1_000_000_000 - d
    ensures run[i].marked + 2 <= run[i].req.timestamp + 1_000_000_000 + (run[j].marked - run[j].checked) + d
  {
    FreshApart(MarksOf(run), NONCE_TTL, d, i, j);
    PassesUntil(run[j]);
  }

  /** Something can happen after the run that lets its last request in again. */
  ghost predicate Repeats(run: seq<Arrival>, more: seq<Arrival>, wait: nat, d: nat)
    requires run != []
  {
    && more != [] && Timely(run + more, wait, d)
    && more[|more| - 1].req == run[|run| - 1].req && Accepted(run + more, |run + more| - 1)
  }

  /** The condition on what has happened: the last request was marked early enough, and no mark lies too far ahead. */
  ghost predicate CanRepeat(run: seq<Arrival>, wait: nat, d: nat)
    requires run != []
  {
    var last := run[|run| - 1];
    && last.marked + 2 <= last.req.timestamp + 1_000_000_000 + wait + d
    && forall i :: 0 <= i < |run| && MarkOf(run[i]).Some? ==> run[i].marked <= LastPass(last.req.timestamp) + wait + d
  }

  lemma {:induction false} MarksPrefix(run: seq<Arrival>, more: seq<Arrival>, i: nat)
    requires i < |run|
    ensures Accepted(run + more, i) == Accepted(run, i)
  {
    assert MarksOf(run + more)[..i] == MarksOf(run)[..i];
  }

  lemma {:induction false} RepeatNeeds(run: seq<Arrival>, more: seq<Arrival>, wait: nat, d: nat)
    requires run != [] && Accepted(run, |run| - 1) && Repeats(run, more, wait, d)
    ensures CanRepeat(run, wait, d)
  {
    var all, n := run + more, |run| - 1;
    var j := |all| - 1;
    MarksPrefix(run, more, n);
    RepeatOnlyIfEarly(all, wait, d, n, j);
    PassesUntil(all[j]);
    forall i | 0 <= i < |run| && MarkOf(run[i]).Some?
      ensures run[i].marked <= LastPass(run[n].req.timestamp) + wait + d
    {
      assert MarksOf(all)[i].value.now <= MarksOf(all)[j].value.now + d;
    }
  }

  /** Another request overtakes the repeat, which was checked at the last moment and waited. */
  function Overtaking(last: Request, other: string, wait: nat, d: nat): seq<Arrival> {
    var checked := LastPass(last.timestamp);
    var late := checked + wait + d;
    [Arrival(Request(other, late, true), late, late), Arrival(last, checked, checked + wait)]
  }

  lemma {:induction false} FreshPrefix(ms: Marks, more: Marks, ttl: nat, i: nat)
    requires i < |ms|
    ensures Fresh(ms + more, ttl, i) == Fresh(ms, ttl, i)
  {
    assert (ms + more)[..i] == ms[..i];
  }

  lemma {:induction false} OutlivedPrefix(ms: Marks, more: Marks, ttl: nat, i: nat)
    requires i < |ms| && ms[i].Some? && Outlived(ms, ttl, i, |ms|)
    ensures Outlived(ms + more, ttl, i, |ms + more|)
  {
    var all := ms + more;
    var k :| i < k < |ms| && ms[k].Some? && ms[k].value.now > ms[i].value.now + ttl;
    assert all[k] == ms[k] && all[i] == ms[i];
  }

  lemma OutlivedBy(ms: Marks, ttl: nat, i: nat, k: nat, m: nat)
    requires i < k < m <= |ms| && ms[i].Some? && ms[k].Some? && ms[k].value.now > ms[i].value.now + ttl
    ensures Outlived(ms, ttl, i, m)
  {
  }

  /** A call that outlives the last accepted use of a key makes the key usable again. */
  lemma {:induction false} OvertakenFresh(ms: Marks, ttl: nat, x: Mark, y: Mark)
    requires ms != [] && Fresh(ms, ttl, |ms| - 1) && ms[|ms| - 1].value.key == y.key != x.key
    requires x.now > ms[|ms| - 1].value.now + ttl
    ensures Fresh(ms + [Some(x), Some(y)], ttl, |ms| + 1)
  {
    var n, more := |ms|, [Some(x), Some(y)];
    var all := ms + more;
    hide Fresh;
    hide Outlived;
    FreshIff(ms, ttl, n - 1);
    FreshIff(all, ttl, n + 1);
    forall i | 0 <= i < n + 1 && Fresh(all, ttl, i) && all[i].value.key == y.key ensures Outlived(all, ttl, i, n + 2) {
      assert i != n;
      FreshPrefix(ms, more, ttl, i);
      if i == n - 1 {
        assert all[n] == Some(x) && all[i] == ms[i];
        OutlivedBy(all, ttl, i, n, n + 2);
      } else {
        OutlivedPrefix(ms, more, ttl, i);
      }
    }
  }

  lemma {:induction false} OvertakingMarks(run: seq<Arrival>, last: Request, other: string, wait: nat, d: nat)
    requires last.valid
    ensures var late := LastPass(last.timestamp) + wait + d;
            MarksOf(run + Overtaking(last, other, wait, d)) ==
            MarksOf(run) + [Some(Mark(other, late)), Some(Mark(last.key, LastPass(last.timestamp) + wait))]
  {
    var all := run + Overtaking(last, other, wait, d);
    assert all[|run|] == Overtaking(last, other, wait, d)[0] && all[|run| + 1] == Overtaking(last, other, wait, d)[1];
  }

  lemma {:induction false} OvertakingTimely(run: seq<Arrival>, other: string, wait: nat, d: nat)
    requires run != [] && Timely(run, wait, d) && run[|run| - 1].req.valid && CanRepeat(run, wait, d)
    ensures Timely(run + Overtaking(run[|run| - 1].req, other, wait, d), wait, d)
  {
    OvertakingMarks(run, run[|run| - 1].req, other, wait, d);
    assert forall i :: 0 <= i < |run| ==> MarksOf(run)[i] == MarkOf(run[i]);
    hide MarkOf;
    hide SkewSeconds;
  }

  lemma {:induction false} RepeatHappens(run: seq<Arrival>, other: string, wait: nat, d: nat)
    requires run != [] && Timely(run, wait, d) && Accepted(run, |run| - 1) && CanRepeat(run, wait, d)
    requires other != run[|run| - 1].req.key
    ensures Repeats(run, Overtaking(run[|run| - 1].req, other, wait, d), wait, d)
  {
    var last := run[|run| - 1];
    var checked := LastPass(last.req.timestamp);
    OvertakingTimely(run, other, wait, d);
    OvertakingMarks(run, last.req, other, wait, d);
    hide Timely;
    OvertakenFresh(MarksOf(run), NONCE_TTL, Mark(other, checked + wait + d), Mark(last.req.key, checked + wait));
  }

  /** And the bound is exact: whether a repeat can still get in depends on nothing else. */
  lemma RepeatPossibleIff(run: seq<Arrival>, wait: nat, d: nat)
    requires run != [] && Timely(run, wait, d) && Accepted(run, |run| - 1)
    ensures (exists more :: Repeats(run, more, wait, d)) <==> CanRepeat(run, wait, d)
  {
    if CanRepeat(run, wait, d) {
      RepeatHappens(run, run[|run| - 1].req.key + "'", wait, d);
    }
    if more :| Repeats(run, more, wait, d) {
      RepeatNeeds(run, more, wait, d);
    }
  }
}
