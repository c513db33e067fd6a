/** The RAM key cache beside the `keys` table (`KeyCache` and the use cases that read or clear it). */
module KeyCache {
  import opened Wrappers
  import opened Bytes
  import opened KeyTable
  import opened KeyLifecycle

  /** The vHSM: `unwrap` fails with None; `wrap` takes the randomness it uses. */
  datatype Crypto = Crypto(unwrap: Sealed -> Option<bytes>, wrap: (bytes, nat) -> Sealed, masterVersion: int)

  function Opened(c: Crypto, s: Sealed): Option<bytes> {
    c.unwrap(s)
  }

  function Wrapped(c: Crypto, plain: bytes, nonce: nat): Sealed {
    c.wrap(plain, nonce)
  }

  /** Unwrapping undoes wrapping, which uses the current master key. */
  ghost predicate Sound(c: Crypto) {
    forall plain, nonce: nat ::
      Opened(c, Wrapped(c, plain, nonce)) == Some(plain) && Wrapped(c, plain, nonce).masterVersion == c.masterVersion
  }

  datatype Cached = Cached(version: nat, secret: bytes)

  type Cache = map<Pair, Cached>

  datatype State = State(rows: Table, cache: Cache)

  /** Each cached key is the unwrapped active key of its pair, under its version. */
  ghost predicate Coherent(c: Crypto, st: State) {
    forall p :: p in st.cache ==>
      && ActiveRow(st.rows, p).Some?
      && Opened(c, ActiveRow(st.rows, p).value.secret) == Some(st.cache[p].secret)
      && ActiveRow(st.rows, p).value.version == st.cache[p].version
  }

  // ---------------------------------------------------------------- reading a key

  datatype Failure = NotFound | CryptoError | InvalidKey

  /** What a reader finds in the database: the active key, unwrapped. */
  function FromTable(c: Crypto, rows: Table, p: Pair): Result<Cached, Failure> {
    match ActiveRow(rows, p)
    case None => Err(NotFound)
    case Some(r) =>
      match Opened(c, r.secret)
      case None => Err(CryptoError)
      case Some(plain) => Ok(Cached(r.version, plain))
  }

  /** `get_private_key`, `get_symmetric_key`: the cache first, then the database. */
  function Answer(c: Crypto, st: State, p: Pair): Result<Cached, Failure> {
    if p in st.cache then Ok(st.cache[p]) else FromTable(c, st.rows, p)
  }

  /** A miss of a preloaded pair fills the cache. */
  function AfterRead(c: Crypto, st: State, p: Pair, preload: bool): State {
    if p in st.cache || !preload then st
    else match FromTable(c, st.rows, p)
         case Err(_) => st
         case Ok(key) => st.(cache := st.cache[p := key])
  }

  /**
   A hit answers from the cache. A miss answers with the active key of row `i`, unwrapped, and
   caches that if the pair is to be preloaded; a failed read changes nothing.
   */
  lemma {:induction false} ReadIs(c: Crypto, st: State, p: Pair, preload: bool, i: nat)
    requires Consistent(st.rows) && ActiveAt(st.rows, p, i)
    ensures var r, e := Answer(c, st, p), AfterRead(c, st, p, preload);
            && e.rows == st.rows && (r.Err? || !preload ==> e == st)
            && (p in st.cache ==> r == Ok(st.cache[p]) && e == st)
            && (p !in st.cache && i >= |st.rows| ==> r == Err(NotFound))
            && (p !in st.cache && i < |st.rows| ==>
                  match Opened(c, st.rows[i].secret)
                  case None => r == Err(CryptoError)
                  case Some(plain) =>
                    && r == Ok(Cached(st.rows[i].version, plain))
                    && (preload ==> e.cache == st.cache[p := Cached(st.rows[i].version, plain)]))
  {
    if i < |st.rows| {
      ActiveRowIs(st.rows, i);
    } else {
      NoActive(st.rows, p);
    }
    hide Consistent;
    hide ActiveAt;
    hide ActiveRow;
  }

  /** With a coherent cache a hit answers exactly as a miss would. */
  lemma {:induction false} HitAnswersAsMiss(c: Crypto, st: State, p: Pair)
    requires Coherent(c, st)
    ensures Answer(c, st, p) == FromTable(c, st.rows, p)
  {
  }

  lemma {:induction false} ReadKeepsCoherent(c: Crypto, st: State, p: Pair, preload: bool)
    requires Coherent(c, st)
    ensures Coherent(c, AfterRead(c, st, p, preload))
  {
  }

  // ---------------------------------------------------------------- signing

  /** The key `sign_data` signs with when no version is asked for, and the version it reports. */
  function SigningKey(c: Crypto, st: State, p: Pair): Result<(bytes, nat), Failure> {
    match Answer(c, st, p)
    case Err(e) => Err(e)
    case Ok(key) => if |key.secret| < 32 then Err(InvalidKey) else Ok((key.secret[..32], ActiveVersion(st.rows, p)))
  }

  /** Signing takes the first 32 bytes of the active key `i` and reports its version, or says what is missing. */
  lemma {:induction false} SigningIs(c: Crypto, st: State, p: Pair, i: nat)
    requires Coherent(c, st) && Consistent(st.rows) && ActiveAt(st.rows, p, i)
    ensures var r := SigningKey(c, st, p);
            if i >= |st.rows| then r == Err(NotFound)
            else match Opened(c, st.rows[i].secret)
                 case None => r == Err(CryptoError)
                 case Some(plain) =>
                   if |plain| < 32 then r == Err(InvalidKey) else r == Ok((plain[..32], st.rows[i].version))
  {
    HitAnswersAsMiss(c, st, p);
    ReadIs(c, st.(cache := map[]), p, false, i);
    if i < |st.rows| {
      ActiveRowIs(st.rows, i);
    }
    hide Consistent;
    hide Coherent;
    hide ActiveAt;
    hide ActiveRow;
  }

  /** The version that `sign_data` reports is the version of the key it signed with. */
  lemma {:induction false} ReportedVersionSigned(c: Crypto, st: State, p: Pair)
    requires Coherent(c, st) && SigningKey(c, st, p).Ok?
    ensures var (key, version) := SigningKey(c, st, p).value;
            && VersionRow(st.rows, p, version).Some? && ActiveRow(st.rows, p).Some?
            && ActiveRow(st.rows, p).value.version == version
            && FromTable(c, st.rows, p).Ok? && key == FromTable(c, st.rows, p).value.secret[..32]
  {
    HitAnswersAsMiss(c, st, p);
    var r := ActiveRow(st.rows, p).value;
    var i :| 0 <= i < |st.rows| && st.rows[i] == r;
  }

  /** `sign_data` with a pinned version: on a miss that version is unwrapped, and cached if preloaded. */
  function AfterPinned(c: Crypto, st: State, p: Pair, version: nat, preload: bool): State {
    if p in st.cache || !preload then st
    else match VersionRow(st.rows, p, version)
         case None => st
         case Some(r) =>
           match Opened(c, r.secret)
           case None => st
           case Some(plain) => st.(cache := st.cache[p := Cached(r.version, plain)])
  }

  /** The active version names the active row. */
  lemma ActiveByVersion(t: Table, p: Pair)
    requires Consistent(t) && VersionRow(t, p, ActiveVersion(t, p)).Some?
    ensures VersionRow(t, p, ActiveVersion(t, p)) == ActiveRow(t, p)
  {
    var r := VersionRow(t, p, ActiveVersion(t, p)).value;
    var i :| 0 <= i < |t| && t[i] == r;
    assert ActiveRow(t, p).Some?;
    var j :| 0 <= j < |t| && t[j] == ActiveRow(t, p).value;
    assert SameKey(t[i], t[j]) && SameKey(t[j], t[i]);
  }

  /** Pinned signing keeps the cache coherent exactly when it caches nothing or pins the active key. */
  lemma {:induction false} PinnedCoherentIff(c: Crypto, st: State, p: Pair, version: nat, preload: bool)
    requires Coherent(c, st) && Consistent(st.rows)
    ensures Coherent(c, AfterPinned(c, st, p, version, preload)) <==>
            || p in st.cache || !preload || ActiveVersion(st.rows, p) == version
            || VersionRow(st.rows, p, version).None?
            || Opened(c, VersionRow(st.rows, p, version).value.secret).None?
  {
    hide Consistent;
    hide VersionRow;
    hide ActiveRow;
    var e := AfterPinned(c, st, p, version, preload);
    if VersionRow(st.rows, p, version).Some? {
      if ActiveVersion(st.rows, p) == version {
        ActiveByVersion(st.rows, p);
      }
      if e != st && ActiveVersion(st.rows, p) != version {
        assert p in e.cache && e.cache[p].version == version;
      }
    }
  }

  // ---------------------------------------------------------------- changing the table

  lemma {:induction false} ActiveRowSame(t: Table, u: Table, q: Pair)
    requires |t| <= |u|
    requires forall i :: 0 <= i < |t| && (ActiveFor(t[i], q) || ActiveFor(u[i], q)) ==> u[i] == t[i]
    requires forall i :: |t| <= i < |u| ==> !ActiveFor(u[i], q)
    ensures ActiveRow(u, q) == ActiveRow(t, q)
    decreases |t|
  {
    if t != [] {
      assert ActiveFor(t[0], q) || ActiveFor(u[0], q) ==> u[0] == t[0];
      forall i | 0 <= i < |t[1..]| && (ActiveFor(t[1..][i], q) || ActiveFor(u[1..][i], q))
        ensures u[1..][i] == t[1..][i]
      {
        assert t[1..][i] == t[i + 1] && u[1..][i] == u[i + 1];
      }
      ActiveRowSame(t[1..], u[1..], q);
    }
  }

  /** Rows of other pairs do not change, and rows that are not active do not matter. */
  lemma OtherPairKept(t: Table, op: Op, q: Pair)
    requires Consistent(t) && !op.Rewrap?
    requires op.Expire? || op.p != q
    ensures ActiveRow(Done(t, op), q) == ActiveRow(t, q)
  {
    var u := Base(t, op);
    DoneIs(t, op);
    assert |u| == |t| && forall i :: 0 <= i < |t| && (ActiveFor(t[i], q) || ActiveFor(u[i], q)) ==> u[i] == t[i];
    ActiveRowSame(t, u, q);
    if MakesKey(t, op) {
      ActiveRowSame(u, Upserted(u, MadeRow(t, op)), q);
    }
  }

  /** `RotateKeyUseCase::execute`: a compromised key clears every cached key of its service. */
  function AfterRotate(st: State, p: Pair, reason: Reason, key: Material, now: nat): State {
    var op := Rotate(p, reason, key, now);
    if !MakesKey(st.rows, op) then st
    else State(Done(st.rows, op),
               if reason.CompromisedKey? then map q | q in st.cache && q.service != p.service :: st.cache[q]
               else st.cache - {p})
  }

  /** The cached keys that a rotation leaves, as they were. */
  ghost predicate Evicts(cache: Cache, left: Cache, p: Pair, reason: Reason) {
    && (forall q :: q in left <==> q in cache && (if reason == CompromisedKey then q.service != p.service else q != p))
    && (forall q :: q in left ==> left[q] == cache[q])
  }

  /**
   Rotating needs an active key `i`. It retires that key, puts in the next, and evicts the pair,
   or after a compromise every pair of the service.
   */
  ghost predicate Rotation(st: State, e: State, p: Pair, reason: Reason, key: Material, now: nat, i: nat) {
    if i < |st.rows|
    then Evicts(st.cache, e.cache, p, reason) && exists j :: RotatedTo(st.rows, e.rows, i, j, reason, key, now)
    else e == st
  }

  lemma RotateParts(st: State, p: Pair, reason: Reason, key: Material, now: nat)
    requires MakesKey(st.rows, Rotate(p, reason, key, now))
    ensures var e := AfterRotate(st, p, reason, key, now);
            e.rows == Done(st.rows, Rotate(p, reason, key, now)) && Evicts(st.cache, e.cache, p, reason)
  {
    hide Done;
    hide MakesKey;
  }

  lemma {:induction false} RotateIs(st: State, p: Pair, reason: Reason, key: Material, now: nat, i: nat)
    requires Consistent(st.rows) && ActiveAt(st.rows, p, i)
    ensures Rotation(st, AfterRotate(st, p, reason, key, now), p, reason, key, now, i)
    ensures MakesKey(st.rows, Rotate(p, reason, key, now)) <==> i < |st.rows|
  {
    RotatesIff(st.rows, p, reason, key, now, i);
    hide Done;
    hide Evicts;
    hide RotatedTo;
    hide MakesKey;
    hide Consistent;
    if i < |st.rows| {
      var j := RotationIs(st.rows, p, reason, key, now, i);
      RotateParts(st, p, reason, key, now);
    }
  }

  lemma {:induction false} RotateKeepsCoherent(c: Crypto, st: State, p: Pair, reason: Reason, key: Material, now: nat)
    requires Coherent(c, st) && Consistent(st.rows)
    ensures Coherent(c, AfterRotate(st, p, reason, key, now))
  {
    hide Done;
    var op := Rotate(p, reason, key, now);
    forall q | q != p ensures ActiveRow(Done(st.rows, op), q) == ActiveRow(st.rows, q) {
      OtherPairKept(st.rows, op, q);
    }
  }

  lemma {:induction false} ExpireKeepsCoherent(c: Crypto, st: State, now: nat, ids: set<nat>)
    requires Coherent(c, st) && Consistent(st.rows)
    ensures Coherent(c, st.(rows := Done(st.rows, Expire(now, ids))))
  {
    hide Done;
    forall q ensures ActiveRow(Done(st.rows, Expire(now, ids)), q) == ActiveRow(st.rows, q) {
      OtherPairKept(st.rows, Expire(now, ids), q);
    }
  }

  /** Bootstrap's treatment of one access rule: make the key if there is none, then preload it. */
  function AfterEnsure(c: Crypto, st: State, p: Pair, purpose: Purpose, key: Material, preload: bool, now: nat): State {
    var rows := Done(st.rows, Ensure(p, purpose, key, now));
    if !preload then st.(rows := rows)
    else match FromTable(c, rows, p)
         case Err(_) => st.(rows := rows)
         case Ok(found) => State(rows, st.cache[p := found])
  }

  lemma {:induction false} EnsureKeepsCoherent(
      c: Crypto, st: State, p: Pair, purpose: Purpose, key: Material, preload: bool, now: nat)
    requires Coherent(c, st) && Consistent(st.rows)
    ensures Coherent(c, AfterEnsure(c, st, p, purpose, key, preload, now))
  {
    var op := Ensure(p, purpose, key, now);
    assert p in st.cache ==> Done(st.rows, op) == st.rows;
    hide Done;
    hide Consistent;
    hide ActiveRow;
    forall q | q != p ensures ActiveRow(Done(st.rows, op), q) == ActiveRow(st.rows, q) {
      OtherPairKept(st.rows, op, q);
    }
  }

  /** `generate_key_pair` leaves the cache alone: it stays coherent exactly when the pair is not cached. */
  lemma {:induction false} GenerateCoherentIff(c: Crypto, st: State, op: Op)
    requires Coherent(c, st) && Consistent(st.rows) && op.Generate?
    ensures Coherent(c, st.(rows := Done(st.rows, op))) <==> op.p !in st.cache
  {
    var e := st.(rows := Done(st.rows, op));
    forall q | q != op.p ensures ActiveRow(e.rows, q) == ActiveRow(st.rows, q) {
      OtherPairKept(st.rows, op, q);
    }
    if op.p in st.cache {
      StepConsistent(st.rows, op);
      GeneratedVersion(st.rows, op);
    }
  }

  /** An active row of a pair that had none is the one put in. */
  lemma ActiveIsUpserted(u: Table, row: KeyRow)
    requires forall j :: 0 <= j < |u| ==> !ActiveFor(u[j], row.pair)
    ensures var r := ActiveRow(Upserted(u, row), row.pair); r.Some? ==> r.value.version == row.version
  {
    var e := Upserted(u, row);
    if ActiveRow(e, row.pair).Some? {
      var i :| 0 <= i < |e| && e[i] == ActiveRow(e, row.pair).value;
      assert i < |u| ==> !ActiveFor(u[i], row.pair);
    }
  }

  lemma GeneratedVersion(t: Table, op: Op)
    requires Consistent(t) && op.Generate? && ActiveRow(t, op.p).Some?
    ensures ActiveRow(Done(t, op), op.p).Some? ==>
              ActiveRow(Done(t, op), op.p).value.version == ActiveRow(t, op.p).value.version + 1
  {
    hide Done;
    hide Consistent;
    hide ActiveRow;
    hide Upserted;
    DoneIs(t, op);
    var u := Base(t, op);
    assert forall j :: 0 <= j < |u| ==> !ActiveFor(u[j], op.p);
    if MakesKey(t, op) {
      ActiveIsUpserted(u, MadeRow(t, op));
    }
  }

  // ---------------------------------------------------------------- rewrapping

  predicate Stale(r: KeyRow, version: int) {
    r.secret.masterVersion != version
  }

  /** The same key with the same secret, wrapped under the current master key. */
  ghost predicate Renewed(c: Crypto, r: KeyRow, s: KeyRow) {
    && Stale(r, c.masterVersion) && !Stale(s, c.masterVersion)
    && s == r.(secret := s.secret) && Opened(c, r.secret).Some? && Opened(c, s.secret) == Opened(c, r.secret)
  }

  /** `u` is `t` with some rows that can be unwrapped wrapped again, under the current master key. */
  ghost predicate Rewrapped(c: Crypto, t: Table, u: Table) {
    |u| == |t| && forall i :: 0 <= i < |t| ==> u[i] == t[i] || Renewed(c, t[i], u[i])
  }

  lemma {:induction false} RewrappedConsistent(c: Crypto, t: Table, u: Table)
    requires Consistent(t) && Rewrapped(c, t, u)
    ensures Consistent(u)
  {
    assert forall i :: 0 <= i < |t| ==> u[i] == t[i] || Renewed(c, t[i], u[i]);
    SettledConsistent(t, u);
  }

  lemma {:induction false} RewrappedActive(c: Crypto, t: Table, u: Table, p: Pair)
    requires Consistent(u) && Rewrapped(c, t, u) && ActiveRow(t, p).Some?
    ensures ActiveRow(u, p).Some? && ActiveRow(u, p).value.version == ActiveRow(t, p).value.version
    ensures Opened(c, ActiveRow(u, p).value.secret) == Opened(c, ActiveRow(t, p).value.secret)
  {
    var i :| 0 <= i < |t| && t[i] == ActiveRow(t, p).value;
    assert u[i] == t[i] || Renewed(c, t[i], u[i]);
    ActiveRowIs(u, i);
  }

  lemma {:induction false} RewrapKeepsCoherent(c: Crypto, st: State, u: Table)
    requires Coherent(c, st) && Consistent(st.rows) && Rewrapped(c, st.rows, u)
    ensures Coherent(c, st.(rows := u)) && Consistent(u)
  {
    RewrappedConsistent(c, st.rows, u);
    hide Consistent;
    hide Rewrapped;
    forall p | p in st.cache {
      RewrappedActive(c, st.rows, u, p);
    }
  }

  // ---------------------------------------------------------------- cache cleanup

  /** Services with a cached pair that is found to have no active key; `failed` are lookups that err. */
  function DeadServices(st: State, failed: set<Pair>): set<string> {
    set p | p in st.cache && p !in failed && ActiveRow(st.rows, p).None? :: p.service
  }

  /** One pass of the cleanup worker: a service keeps its entries unless one of them is found without a key. */
  function AfterCleanup(st: State, failed: set<Pair>): (r: State)
    ensures r.rows == st.rows
    ensures forall p :: p in r.cache <==>
              && p in st.cache
              && forall q :: q in st.cache && q.service == p.service && q !in failed ==> ActiveRow(st.rows, q).Some?
    ensures forall p :: p in r.cache ==> r.cache[p] == st.cache[p]
  {
    var dead := DeadServices(st, failed);
    st.(cache := map p | p in st.cache && p.service !in dead :: st.cache[p])
  }

  /** Over a coherent cache the worker has nothing to do. */
  lemma {:induction false} CleanupIdle(c: Crypto, st: State, failed: set<Pair>)
    requires Coherent(c, st)
    ensures AfterCleanup(st, failed) == st
  {
    assert DeadServices(st, failed) == {};
  }

  /**
   The query behind the cleanup lists active rows only: after a rotation and a failed save, a
   cached key goes although its pair still has a deprecated key within its grace period.
   */
  lemma CleanupIgnoresGrace(
      p: Pair, purpose: Purpose, first: Material, second: Material, lost: Material, now: nat, cached: Cached)
    requires !p.algorithm.EcdsaP256?
    ensures var made, rotated := Generate(p, purpose, first, now, true), Rotate(p, Scheduled, second, now);
            var t := TableAfter([made, rotated, Generate(p, purpose, lost, now, false)]);
            && |t| == 2 && t[0].pair == p && t[0].status == Deprecated && !PastGrace(t[0], now)
            && AfterCleanup(State(t, map[p := cached]), {}).cache == map[]
  {
    var g, r := Generate(p, purpose, first, now, true), Rotate(p, Scheduled, second, now);
    var f := Generate(p, purpose, lost, now, false);
    assert [g, r, f][..2] == [g, r] && [g, r][..1] == [g] && [g][..0] == [];
    var one := NewRow(p, 1, purpose, first, now);
    assert TableAfter([]) == [] && TableAfter([g]) == [] + [one];
    assert ActiveRow([one], p) == Some(one);
    var aside := RetiredRow(one, p, Deprecated, now);
    var two := NewRow(p, 2, purpose, second, now);
    assert Retired([one], p, Deprecated, now) == [aside] && !SameKey(aside, two);
    assert TableAfter([g, r]) == Done([one], r) == [aside] + [two];
    var t := [aside, RevokedRow(two, p)];
    assert ActiveRow([aside, two], p) == Some(two) by { assert [aside, two][1..] == [two]; }
    assert TableAfter([g, r, f]) == Done([aside, two], f) == t;
    assert ActiveRow(t, p).None?;
    assert p in State(t, map[p := cached]).cache;
  }

  // ---------------------------------------------------------------- runs

  datatype Event =
    | Read(p: Pair, preload: bool)
    | RotateKey(p: Pair, reason: Reason, key: Material, now: nat)
    | EnsureKey(p: Pair, purpose: Purpose, key: Material, preload: bool, now: nat)
    | ExpireKeys(now: nat, ids: set<nat>)
    | RewrapKeys(rows: Table)
    | Cleanup(failed: set<Pair>)

  function Next(c: Crypto, st: State, e: Event): State {
    match e
    case Read(p, preload) => AfterRead(c, st, p, preload)
    case RotateKey(p, reason, key, now) => AfterRotate(st, p, reason, key, now)
    case EnsureKey(p, purpose, key, preload, now) => AfterEnsure(c, st, p, purpose, key, preload, now)
    case ExpireKeys(now, ids) => st.(rows := Done(st.rows, Expire(now, ids)))
    case RewrapKeys(rows) => st.(rows := rows)
    case Cleanup(failed) => AfterCleanup(st, failed)
  }

  /** A rewrap leaves any table that `rewrap_keys` may leave, whether it ends well or not. */
  ghost predicate Allowed(c: Crypto, st: State, e: Event) {
    e.RewrapKeys? ==> Rewrapped(c, st.rows, e.rows)
  }

  ghost predicate Good(c: Crypto, st: State) {
    Consistent(st.rows) && Coherent(c, st)
  }

  lemma {:induction false} EventKeepsGood(c: Crypto, st: State, e: Event)
    requires Good(c, st) && Allowed(c, st, e)
    ensures Good(c, Next(c, st, e))
  {
    hide Done;
    hide Consistent;
    match e
    case Read(p, preload) => ReadKeepsCoherent(c, st, p, preload);
    case RotateKey(p, reason, key, now) =>
      StepConsistent(st.rows, Rotate(p, reason, key, now));
      RotateKeepsCoherent(c, st, p, reason, key, now);
    case EnsureKey(p, purpose, key, preload, now) =>
      StepConsistent(st.rows, Ensure(p, purpose, key, now));
      EnsureKeepsCoherent(c, st, p, purpose, key, preload, now);
    case ExpireKeys(now, ids) =>
      StepConsistent(st.rows, Expire(now, ids));
      ExpireKeepsCoherent(c, st, now, ids);
    case RewrapKeys(rows) => RewrapKeepsCoherent(c, st, rows);
    case Cleanup(failed) => CleanupIdle(c, st, failed);
  }

  ghost predicate Runs(c: Crypto, st: State, es: seq<Event>, end: State)
    decreases |es|
  {
    if es == [] then st == end
    else Allowed(c, st, es[0]) && Runs(c, Next(c, st, es[0]), es[1..], end)
  }

  /**
   In every serialised run of reads, signings, rotations, preloads, expirations, rewraps and
   cleanups, from any coherent state, each cached key stays the unwrapped active key of its
   pair; so at the end every read answers as if there were no cache.
   */
  lemma {:induction false} RunStaysCoherent(c: Crypto, st: State, es: seq<Event>, end: State)
    requires Good(c, st) && Runs(c, st, es, end)
    ensures Good(c, end) && forall p :: Answer(c, end, p) == FromTable(c, end.rows, p)
    decreases |es|
  {
    hide Next;
    if es == [] {
      forall p ensures Answer(c, end, p) == FromTable(c, end.rows, p) {
        HitAnswersAsMiss(c, end, p);
      }
    } else {
      EventKeepsGood(c, st, es[0]);
      RunStaysCoherent(c, Next(c, st, es[0]), es[1..], end);
    }
  }
}
