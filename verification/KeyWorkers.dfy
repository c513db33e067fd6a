/** The key service's loops, over its table and cache. */
module KeyWorkers {
  import opened Wrappers
  import opened Bytes
  import opened KeyTable
  import opened KeyLifecycle
  import opened KeyCache
  import opened KeyBootstrap
  import opened PostgresRewrap

  /** `id` is the table's primary key. */
  ghost predicate DistinctIds(t: Table) {
    forall i, j :: 0 <= i < j < |t| ==> t[i].id != t[j].id
  }

  /** `update_key_status` to a status other than active. */
  function StatusSet(t: Table, id: nat, status: Status): Table {
    seq(|t|, i requires 0 <= i < |t| => if t[i].id == id then t[i].(status := status, isActive := false) else t[i])
  }

  // ---------------------------------------------------------------- rewrapping, as counts

  function StaleCount(t: Table, version: int): nat {
    if t == [] then 0 else (if Stale(t[0], version) then 1 else 0) + StaleCount(t[1..], version)
  }

  /** `get_keys_needing_rewrap` as the repository contract has it: up to `n` rows of another master version. */
  function Pending(t: Table, version: int, n: nat): seq<KeyRow> {
    if t == [] || n == 0 then []
    else if Stale(t[0], version) then [t[0]] + Pending(t[1..], version, n - 1)
    else Pending(t[1..], version, n)
  }

  lemma {:induction false} PendingFacts(t: Table, version: int, n: nat)
    ensures forall r :: r in Pending(t, version, n) ==> r in t && Stale(r, version)
    ensures |Pending(t, version, n)| == if n < StaleCount(t, version) then n else StaleCount(t, version)
    decreases |t|
  {
    if t != [] {
      PendingFacts(t[1..], version, n);
      if n > 0 {
        PendingFacts(t[1..], version, n - 1);
      }
    }
  }

  /** `t` after the pending rows got the new version. */
  lemma {:induction false} RewrapDrops(t: Table, version: int, n: nat, updates: map<nat, Sealed>)
    requires DistinctIds(t)
    requires forall i :: 0 <= i < |t| ==> (t[i].id in updates <==> t[i] in Pending(t, version, n))
    requires forall id :: id in updates ==> updates[id].masterVersion == version
    ensures StaleCount(WithRewrapped(t, updates), version) == StaleCount(t, version) - |Pending(t, version, n)|
    decreases |t|
  {
    var u := WithRewrapped(t, updates);
    PendingFacts(t, version, n);
    if t != [] {
      var rest, m := t[1..], if Stale(t[0], version) && n > 0 then n - 1 else n;
      assert u[1..] == WithRewrapped(rest, updates);
      PendingFacts(rest, version, m);
      if n == 0 {
        assert Pending(rest, version, m) == [];
      }
      forall i | 0 <= i < |rest| ensures rest[i].id in updates <==> rest[i] in Pending(rest, version, m) {
        assert rest[i] == t[i + 1] && t[0].id != t[i + 1].id;
      }
      RewrapDrops(rest, version, m, updates);
    }
  }

  /** The wrapped forms for a batch: current, and holding the same secrets. */
  ghost predicate Renews(c: Crypto, batch: seq<KeyRow>, updates: map<nat, Sealed>) {
    && (forall id :: id in updates ==> exists i :: 0 <= i < |batch| && batch[i].id == id)
    && (forall i :: 0 <= i < |batch| ==>
          && batch[i].id in updates && updates[batch[i].id].masterVersion == c.masterVersion
          && Opened(c, batch[i].secret).Some? && Opened(c, updates[batch[i].id]) == Opened(c, batch[i].secret))
  }

  lemma {:induction false} PendingById(t: Table, version: int, n: nat, updates: map<nat, Sealed>, c: Crypto)
    requires DistinctIds(t) && Renews(c, Pending(t, version, n), updates)
    ensures forall i :: 0 <= i < |t| ==> (t[i].id in updates <==> t[i] in Pending(t, version, n))
  {
    var batch := Pending(t, version, n);
    PendingFacts(t, version, n);
    forall i | 0 <= i < |t| && t[i].id in updates ensures t[i] in batch {
      var k :| 0 <= k < |batch| && batch[k].id == t[i].id;
      assert batch[k] in t;
      var j :| 0 <= j < |t| && t[j] == batch[k];
    }
  }

  /** One batch: every pending row becomes current, and nothing else changes. */
  lemma {:induction false} BatchRewraps(c: Crypto, t: Table, n: nat, updates: map<nat, Sealed>)
    requires DistinctIds(t) && Renews(c, Pending(t, c.masterVersion, n), updates)
    ensures var u := WithRewrapped(t, updates);
            && Rewrapped(c, t, u) && DistinctIds(u)
            && StaleCount(u, c.masterVersion) == StaleCount(t, c.masterVersion) - |Pending(t, c.masterVersion, n)|
  {
    var batch := Pending(t, c.masterVersion, n);
    PendingFacts(t, c.masterVersion, n);
    PendingById(t, c.masterVersion, n, updates, c);
    RewrapDrops(t, c.masterVersion, n, updates);
    var u := WithRewrapped(t, updates);
    forall i | 0 <= i < |t| ensures u[i] == t[i] || Renewed(c, t[i], u[i]) {
      if t[i].id in updates {
        var k :| 0 <= k < |batch| && batch[k] == t[i];
      }
    }
  }

  lemma {:induction false} PendingDistinct(t: Table, version: int, n: nat)
    requires DistinctIds(t)
    ensures var batch := Pending(t, version, n); forall i, j :: 0 <= i < j < |batch| ==> batch[i].id != batch[j].id
    decreases |t|
  {
    if t != [] && n > 0 {
      var m := if Stale(t[0], version) then n - 1 else n;
      PendingDistinct(t[1..], version, m);
      PendingFacts(t[1..], version, m);
      var rest := Pending(t[1..], version, m);
      forall k | 0 <= k < |rest| ensures rest[k].id != t[0].id {
        assert rest[k] in t[1..];
      }
    }
  }

  lemma {:induction false} StuckPending(c: Crypto, t: Table, n: nat)
    requires var batch := Pending(t, c.masterVersion, n);
             exists k :: 0 <= k < |batch| && Opened(c, batch[k].secret).None?
    ensures Stuck(c, t)
  {
    PendingFacts(t, c.masterVersion, n);
    var batch := Pending(t, c.masterVersion, n);
    var k :| 0 <= k < |batch| && Opened(c, batch[k].secret).None?;
    assert batch[k] in t;
  }

  lemma {:induction false} RewrappedTwice(c: Crypto, t: Table, u: Table, v: Table)
    requires Rewrapped(c, t, u) && Rewrapped(c, u, v)
    ensures Rewrapped(c, t, v)
  {
    forall i | 0 <= i < |t| ensures v[i] == t[i] || Renewed(c, t[i], v[i]) {
      assert u[i] == t[i] || Renewed(c, t[i], u[i]);
    }
  }

  lemma {:induction false} NoneStale(t: Table, version: int)
    ensures StaleCount(t, version) == 0 <==> forall i :: 0 <= i < |t| ==> !Stale(t[i], version)
  {
    if t != [] {
      NoneStale(t[1..], version);
      assert forall i :: 0 <= i < |t[1..]| ==> t[1..][i] == t[i + 1];
      assert (forall i :: 0 <= i < |t| ==> !Stale(t[i], version)) ==>
          forall i :: 0 <= i < |t[1..]| ==> !Stale(t[1..][i], version);
      assert forall i :: 0 < i < |t| ==> t[i] == t[1..][i - 1];
    }
  }

  /** Some row needs rewrapping and cannot be unwrapped. */
  ghost predicate Stuck(c: Crypto, t: Table) {
    exists i :: 0 <= i < |t| && Stale(t[i], c.masterVersion) && Opened(c, t[i].secret).None?
  }

  lemma {:induction false} StuckKept(c: Crypto, t: Table, u: Table)
    requires Rewrapped(c, t, u)
    ensures Stuck(c, t) <==> Stuck(c, u)
  {
    if Stuck(c, t) {
      var i :| 0 <= i < |t| && Stale(t[i], c.masterVersion) && Opened(c, t[i].secret).None?;
      assert u[i] == t[i];
    }
    if Stuck(c, u) {
      var i :| 0 <= i < |u| && Stale(u[i], c.masterVersion) && Opened(c, u[i].secret).None?;
      assert u[i] == t[i];
    }
  }

  datatype RewrapError = VersionMismatch | UnwrapFailed | StoreFailed

  class KeyService {
    const c: Crypto
    var rows: Table
    var cache: Cache

    ghost function St(): State
      reads this
    {
      State(rows, cache)
    }

    constructor (crypto: Crypto, rows: Table)
      ensures c == crypto && St() == State(rows, map[])
    {
      c := crypto;
      this.rows := rows;
      cache := map[];
    }

    /** `GetPrivateKeyUseCase::execute` and its symmetric twin, past the ACL check. */
    method GetKey(p: Pair, preload: bool) returns (r: Result<Cached, Failure>)
      modifies this`cache
      ensures r == Answer(c, old(St()), p) && St() == AfterRead(c, old(St()), p, preload)
    {
      if p in cache {
        return Ok(cache[p]);
      }
      var row := ActiveRow(rows, p);
      if row.None? {
        return Err(NotFound);
      }
      var plain := Opened(c, row.value.secret);
      if plain.None? {
        return Err(CryptoError);
      }
      if preload {
        cache := cache[p := Cached(row.value.version, plain.value)];
      }
      r := Ok(Cached(row.value.version, plain.value));
    }

    /** `GenerateKeyPairUseCase::execute`, past the ACL check: two statements, the second of which may fail. */
    method GenerateKeyPair(p: Pair, purpose: Purpose, key: Material, now: nat, saved: bool) returns (r: Option<KeyRow>)
      modifies this`rows
      ensures rows == Done(old(rows), Generate(p, purpose, key, now, saved))
      ensures r.Some? <==> MakesKey(old(rows), Generate(p, purpose, key, now, saved))
      ensures r.Some? ==> r.value == MadeRow(old(rows), Generate(p, purpose, key, now, saved))
    {
      var current := ActiveRow(rows, p);
      var version := 1;
      if current.Some? {
        rows := Deactivated(rows, p);
        version := current.value.version + 1;
      }
      if p.algorithm.EcdsaP256? || !saved {
        return None;
      }
      var row := NewRow(p, version, purpose, key, now);
      rows := Upserted(rows, row);
      r := Some(row);
    }

    /** `SignDataUseCase::execute` up to the signature: the key, and the version it will report. */
    method SelectSigningKey(p: Pair, preload: bool) returns (r: Result<(bytes, nat), Failure>)
      modifies this`cache
      ensures r == SigningKey(c, old(St()), p) && St() == AfterRead(c, old(St()), p, preload)
    {
      var key := GetKey(p, preload);
      if key.Err? {
        return Err(key.error);
      }
      if |key.value.secret| < 32 {
        return Err(InvalidKey);
      }
      var current := ActiveRow(rows, p);
      r := Ok((key.value.secret[..32], if current.Some? then current.value.version else 0));
    }

    /** `RotateKeyUseCase::execute`, past the ACL check: table first, cache after. */
    method RotateKey(p: Pair, reason: Reason, key: Material, now: nat) returns (r: Option<KeyRow>)
      modifies this
      ensures St() == AfterRotate(old(St()), p, reason, key, now)
      ensures r.Some? <==> MakesKey(old(rows), Rotate(p, reason, key, now))
      ensures r.Some? ==> r.value == MadeRow(old(rows), Rotate(p, reason, key, now))
      ensures Consistent(old(rows)) ==> forall i: nat | ActiveAt(old(rows), p, i) ::
                Rotation(old(St()), St(), p, reason, key, now, i) && (r.Some? <==> i < |old(rows)|)
    {
      hide Consistent;
      hide ActiveAt;
      hide ActiveRow;
      hide Rotation;
      hide Upserted;
      hide Retired;
      if Consistent(rows) {
        forall i: nat | ActiveAt(rows, p, i)
          ensures Rotation(St(), AfterRotate(St(), p, reason, key, now), p, reason, key, now, i)
          ensures MakesKey(rows, Rotate(p, reason, key, now)) <==> i < |rows|
        {
          RotateIs(St(), p, reason, key, now, i);
        }
      }
      var current := ActiveRow(rows, p);
      if current.None? || p.algorithm.EcdsaP256? {
        return None;
      }
      var row := NewRow(p, current.value.version + 1, current.value.purpose, key, now);
      rows := Upserted(Retired(rows, p, RetiredStatus(reason), now), row);
      match reason {
        case CompromisedKey => cache := map q | q in cache && q.service != p.service :: cache[q];
        case _ => cache := cache - {p};
      }
      r := Some(row);
    }

    /** One pass of `run_cache_cleanup` over a snapshot of the cached pairs, in any order, skipping failed lookups. */
    method CleanupCache(failed: set<Pair>)
      modifies this`cache
      ensures St() == AfterCleanup(old(St()), failed)
    {
      var snapshot := cache.Keys;
      ghost var gone: set<string> := {};
      while snapshot != {}
        invariant snapshot <= old(cache).Keys
        invariant forall q :: q in old(cache) && q !in failed && ActiveRow(rows, q).None? ==>
                    q in snapshot || q.service in gone
        invariant forall s :: s in gone ==> s in DeadServices(old(St()), failed)
        invariant cache == map q | q in old(cache) && q.service !in gone :: old(cache)[q]
        decreases |snapshot|
      {
        var k :| k in snapshot;
        snapshot := snapshot - {k};
        if k !in failed && ActiveRow(rows, k).None? {
          cache := map q | q in cache && q.service != k.service :: cache[q];
          gone := gone + {k.service};
        }
      }
      assert gone == DeadServices(old(St()), failed);
    }

    /** `process_expirations`: one update and one audit record per key; a record may fail. */
    method ProcessExpirations(now: nat, recorded: nat -> bool) returns (done: set<nat>, ok: bool)
      requires DistinctIds(rows)
      modifies this`rows
      ensures rows == WithExpired(old(rows), now, done)
      ensures |rows| == |old(rows)| && forall i :: 0 <= i < |rows| ==>
                if old(rows)[i].id in done then rows[i] == old(rows)[i].(status := Expired, isActive := false)
                else rows[i] == old(rows)[i]
      ensures forall i :: 0 <= i < |rows| && old(rows)[i].id in done ==>
                old(rows)[i].status == Deprecated && old(rows)[i].createdAt + 1800 <= now
      ensures ok ==> forall i :: 0 <= i < |rows| ==> rows[i].status != Deprecated || now < rows[i].createdAt + 1800
      ensures ok <==> forall id :: id in done ==> recorded(id)
    {
      done, ok := {}, true;
      assert WithExpired(rows, now, {}) == rows;
      for n := 0 to |rows|
        invariant rows == WithExpired(old(rows), now, done) && |rows| == |old(rows)|
        invariant forall i :: n <= i < |rows| ==> old(rows)[i].id !in done
        invariant forall i :: 0 <= i < |rows| && old(rows)[i].id in done ==> PastGrace(old(rows)[i], now)
        invariant forall i :: 0 <= i < n ==> !PastGrace(rows[i], now)
        invariant forall id :: id in done ==> recorded(id)
      {
        if PastGrace(rows[n], now) {
          var id := rows[n].id;
          rows := StatusSet(rows, id, Expired);
          done := done + {id};
          assert rows == WithExpired(old(rows), now, done);
          if !recorded(id) {
            return done, false;
          }
        }
      }
    }

    /** The inner loop of `rewrap_keys`: unwrap and wrap again, up to the first failure. */
    method RewrapBatch(pending: seq<KeyRow>, nonce: nat) returns (r: Option<map<nat, Sealed>>)
      requires Sound(c)
      requires forall i, j :: 0 <= i < j < |pending| ==> pending[i].id != pending[j].id
      ensures r.Some? <==> forall i :: 0 <= i < |pending| ==> Opened(c, pending[i].secret).Some?
      ensures r.Some? ==> Renews(c, pending, r.value)
    {
      var updates: map<nat, Sealed> := map[];
      for k := 0 to |pending|
        invariant Renews(c, pending[..k], updates)
      {
        var plain := Opened(c, pending[k].secret);
        if plain.None? {
          return None;
        }
        updates := updates[pending[k].id := Wrapped(c, plain.value, nonce + k)];
        assert pending[..k + 1] == pending[..k] + [pending[k]];
      }
      assert pending[..|pending|] == pending;
      r := Some(updates);
    }

    /** `rewrap_keys` over a repository that keeps its contract; `stored(k)`: the k-th batch update commits. */
    method RewrapKeys(target: int, batchSize: nat, stored: nat -> bool) returns (r: Result<nat, RewrapError>)
      requires Sound(c) && DistinctIds(rows)
      modifies this`rows
      ensures Rewrapped(c, old(rows), rows)
      ensures |rows| == |old(rows)| && forall i :: 0 <= i < |rows| ==>
                && rows[i] == old(rows)[i].(secret := rows[i].secret)
                && Opened(c, rows[i].secret) == Opened(c, old(rows)[i].secret)
      ensures r == Err(VersionMismatch) <==> target != c.masterVersion
      ensures r == Err(VersionMismatch) ==> rows == old(rows)
      ensures r.Ok? ==> r.value == if batchSize == 0 then 0 else StaleCount(old(rows), target)
      ensures r.Ok? && batchSize > 0 ==> forall i :: 0 <= i < |rows| ==> rows[i].secret.masterVersion == target
      ensures r.Ok? ==> batchSize == 0 || !Stuck(c, old(rows))
      ensures r == Err(UnwrapFailed) ==> batchSize > 0 && Stuck(c, old(rows))
      ensures r == Err(StoreFailed) ==> exists k :: !stored(k)
    {
      if target != c.masterVersion {
        return Err(VersionMismatch);
      }
      var total: nat, batch: nat, nonce: nat := 0, 0, 0;
      while true
        invariant DistinctIds(rows) && Rewrapped(c, old(rows), rows)
        invariant total + StaleCount(rows, target) == StaleCount(old(rows), target)
        invariant batchSize == 0 ==> total == 0
        decreases StaleCount(rows, target)
      {
        var pending := Pending(rows, target, batchSize);
        PendingFacts(rows, target, batchSize);
        if pending == [] {
          break;
        }
        PendingDistinct(rows, target, batchSize);
        var updates := RewrapBatch(pending, nonce);
        StuckKept(c, old(rows), rows);
        if updates.None? {
          StuckPending(c, rows, batchSize);
          return Err(UnwrapFailed);
        }
        if !stored(batch) {
          return Err(StoreFailed);
        }
        BatchRewraps(c, rows, batchSize, updates.value);
        RewrappedTwice(c, old(rows), rows, WithRewrapped(rows, updates.value));
        rows := WithRewrapped(rows, updates.value);
        total, batch, nonce := total + |pending|, batch + 1, nonce + |pending|;
      }
      NoneStale(rows, target);
      StuckKept(c, old(rows), rows);
      r := Ok(total);
    }

    /** The local map of `bootstrap_keys`, from one query for all active keys. */
    method ActiveKeyMap() returns (keyMap: KeyMap)
      requires Consistent(rows)
      ensures MapsActive(keyMap, rows)
    {
      keyMap := map[];
      for n := 0 to |rows|
        invariant forall p :: p in keyMap ==>
                    ActiveRow(rows, p).Some? && keyMap[p] == EntityOf(ActiveRow(rows, p).value)
        invariant forall i :: 0 <= i < n && rows[i].isActive ==> rows[i].pair in keyMap
      {
        if rows[n].isActive {
          ActiveRowIs(rows, n);
          keyMap := keyMap[rows[n].pair := EntityOf(rows[n])];
        }
      }
    }

    /** The inner loop of `rewrap_keys` as the Postgres adapter stores its result. */
    method PostgresBatch(pending: seq<KeyRow>, nonce: nat) returns (r: Option<map<nat, Sealed>>)
      ensures r.Some? <==> AllOpen(c, pending)
      ensures r.Some? ==> r.value == Updates(c, pending, nonce)
    {
      var updates: map<nat, Sealed> := map[];
      for j := 0 to |pending|
        invariant AllOpen(c, pending[..j]) && updates == Updates(c, pending[..j], nonce)
      {
        var plain := Opened(c, pending[j].secret);
        if plain.None? {
          return None;
        }
        assert pending[..j + 1][..j] == pending[..j];
        updates := updates[pending[j].id := Stored(Wrapped(c, plain.value, nonce + j))];
      }
      assert pending[..|pending|] == pending;
      r := Some(updates);
    }

    /** One turn of the outer loop over the Postgres adapter. */
    method PostgresRound(turn: Turn, batchSize: nat, total: nat) returns (r: Progress)
      requires NewestFirst(rows, turn.order)
      modifies this`rows
      ensures r == Round(c, old(rows), turn, batchSize, total) && rows == r.rows
      ensures r.Failed? ==> rows == old(rows)
    {
      var pending := Listed(rows, turn.order, batchSize);
      if pending == [] {
        return Finished(rows, total);
      }
      var updates := PostgresBatch(pending, total);
      if updates.None? || !turn.commits {
        return Failed(rows, total);
      }
      rows := WithRewrapped(rows, updates.value);
      r := Running(rows, total + |pending|);
    }

    /** `rewrap_keys` over the Postgres adapter, past the version check, for at most `rounds` rounds. */
    method RewrapOverPostgres(batchSize: nat, turns: Turns, rounds: nat) returns (r: Progress)
      requires OrdersFor(rows, turns)
      modifies this`rows
      ensures r == Loop(c, turns, batchSize, old(rows), rounds) && rows == r.rows
      ensures rounds >= 1 ==> (r.Finished? <==> old(rows) == [] || batchSize == 0)
    {
      hide Round;
      hide NewestFirst;
      ghost var start := rows;
      var k := 0;
      r := Running(rows, 0);
      while k < rounds && r.Running?
        invariant k <= rounds && r == Loop(c, turns, batchSize, start, k) && rows == r.rows
      {
        SameOrder(start, rows, TurnOf(turns, k).order);
        r := PostgresRound(TurnOf(turns, k), batchSize, r.total);
        k := k + 1;
      }
      if k < rounds {
        LoopStays(c, turns, batchSize, start, k, rounds);
      }
      if rounds >= 1 {
        SucceedsIff(c, turns, batchSize, start, rounds);
      }
    }

    /** The body of the inner loop of `bootstrap_keys`. */
    method BootstrapRule(keyMap: KeyMap, rule: Rule, supply: Supply, made: nat)
      returns (grown: KeyMap, total: nat, ok: bool)
      modifies this
      ensures Boot(St(), grown, total, ok) == AfterRule(c, supply, Boot(old(St()), keyMap, made, true), rule)
    {
      var p := rule.p;
      grown, total, ok := keyMap, made, true;
      if p !in keyMap {
        if CannotMake(supply, p) {
          return grown, total, false;
        }
        var row := NewRow(p, 1, PurposeFor(p.algorithm), Supplied(supply, made), SavedAt(supply, made));
        rows := Upserted(rows, row);
        grown, total := keyMap[p := EntityOf(row)], made + 1;
      }
      if rule.preload {
        var plain := Opened(c, grown[p].secret);
        if plain.None? {
          return grown, total, false;
        }
        cache := cache[p := Cached(grown[p].version, plain.value)];
      }
    }

    /** The inner loop of `bootstrap_keys`. */
    method BootstrapService(keyMap: KeyMap, rules: seq<Rule>, supply: Supply, made: nat)
      returns (grown: KeyMap, total: nat, ok: bool)
      modifies this
      ensures Boot(St(), grown, total, ok) == AfterRules(c, supply, Boot(old(St()), keyMap, made, true), rules)
    {
      hide AfterRule;
      ghost var start := Boot(St(), keyMap, made, true);
      grown, total, ok := keyMap, made, true;
      for j := 0 to |rules|
        invariant ok && Boot(St(), grown, total, ok) == AfterRules(c, supply, start, rules[..j])
      {
        assert rules[..j + 1][..j] == rules[..j];
        grown, total, ok := BootstrapRule(grown, rules[j], supply, total);
        if !ok {
          assert rules == rules[..j + 1] + rules[j + 1..];
          RulesSplit(c, supply, start, rules[..j + 1], rules[j + 1..]);
          FailureStays(c, supply, Boot(St(), grown, total, ok), rules[j + 1..]);
          return;
        }
      }
      assert rules[..|rules|] == rules;
    }

    /** `bootstrap_keys`: the rules of every service in turn, up to the first error. */
    method BootstrapKeys(services: seq<seq<Rule>>, supply: Supply)
      returns (made: nat, ok: bool, ghost first: KeyMap, ghost last: KeyMap)
      requires Consistent(rows)
      modifies this
      ensures MapsActive(first, old(rows))
      ensures Boot(St(), last, made, ok) ==
              AfterRules(c, supply, Boot(old(St()), first, 0, true), Flat(services))
      ensures old(Coherent(c, St())) ==>
                && Good(c, St()) && MapsKeys(last, rows) && ActiveKept(old(rows), rows)
                && (ok ==> forall p, preload :: Rule(p, preload) in Flat(services) ==>
                             ActiveRow(rows, p).Some? && (preload ==> p in cache))
    {
      hide Consistent;
      hide MapsActive;
      var keyMap := ActiveKeyMap();
      first := keyMap;
      ghost var start := Boot(St(), keyMap, 0, true);
      made, ok := 0, true;
      for i := 0 to |services|
        invariant ok && Boot(St(), keyMap, made, ok) == AfterRules(c, supply, start, Flat(services[..i]))
      {
        FlatGrows(services, i);
        RulesSplit(c, supply, start, Flat(services[..i]), services[i]);
        keyMap, made, ok := BootstrapService(keyMap, services[i], supply, made);
        if !ok {
          FailedService(c, supply, start, services, i + 1);
          break;
        }
      }
      assert services[..|services|] == services;
      last := keyMap;
      if old(Coherent(c, St())) {
        BootstrapServes(c, supply, start, Flat(services));
      }
    }
  }
}
