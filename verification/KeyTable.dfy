/** The `keys` table and the statements that change it (`KeyQueries`, `PgKeyRepository`). Times are seconds. */
module KeyTable {
  import opened Wrappers
  import opened Bytes

  datatype Algorithm = Ed25519 | X25519 | AES256GCM | HmacSha256 | EcdsaP256

  datatype Purpose = Signing | Encryption | Authentication

  datatype Status = Active | Deprecated | Revoked | Expired | Compromised

  /** A wrapped private key and the master key version it is wrapped under. */
  datatype Sealed = Sealed(ciphertext: bytes, masterVersion: int)

  datatype Pair = Pair(service: string, algorithm: Algorithm)

  datatype KeyRow = KeyRow(
    id: nat, pair: Pair, version: nat, secret: Sealed, publicKey: string, purpose: Purpose,
    status: Status, isActive: bool, createdAt: nat)

  type Table = seq<KeyRow>

  const GRACE: nat := 30 * 60

  // ---------------------------------------------------------------- statements

  predicate ActiveFor(r: KeyRow, p: Pair) {
    r.pair == p && r.isActive
  }

  /** `get_active_key`: one active row of the pair. */
  function ActiveRow(t: Table, p: Pair): (r: Option<KeyRow>)
    ensures r.Some? ==> r.value in t && ActiveFor(r.value, p)
    ensures r.None? ==> forall i :: 0 <= i < |t| ==> !ActiveFor(t[i], p)
  {
    if t == [] then None
    else if ActiveFor(t[0], p) then Some(t[0])
    else ActiveRow(t[1..], p)
  }

  /** `get_key_by_version`. */
  function VersionRow(t: Table, p: Pair, version: nat): (r: Option<KeyRow>)
    ensures r.Some? ==> r.value in t && r.value.pair == p && r.value.version == version
    ensures r.None? ==> forall i :: 0 <= i < |t| ==> !(t[i].pair == p && t[i].version == version)
  {
    if t == [] then None
    else if t[0].pair == p && t[0].version == version then Some(t[0])
    else VersionRow(t[1..], p, version)
  }

  function RevokedRow(r: KeyRow, p: Pair): KeyRow {
    if ActiveFor(r, p) then r.(status := Revoked, isActive := false) else r
  }

  /** `deactivate_keys_for_service`. */
  function Deactivated(t: Table, p: Pair): Table {
    seq(|t|, i requires 0 <= i < |t| => RevokedRow(t[i], p))
  }

  function RetiredRow(r: KeyRow, p: Pair, status: Status, now: nat): KeyRow {
    if ActiveFor(r, p) then r.(status := status, isActive := false, createdAt := now) else r
  }

  /** The first half of `rotate_active_key`: the retired row's `created_at` becomes the time of retirement. */
  function Retired(t: Table, p: Pair, status: Status, now: nat): Table {
    seq(|t|, i requires 0 <= i < |t| => RetiredRow(t[i], p, status, now))
  }

  predicate SameKey(r: KeyRow, s: KeyRow) {
    r.pair == s.pair && r.version == s.version
  }

  /** The UPSERT would meet a row with the same service, algorithm and version. */
  predicate Conflicts(t: Table, row: KeyRow) {
    exists i :: 0 <= i < |t| && SameKey(t[i], row)
  }

  function Overwritten(r: KeyRow, row: KeyRow): KeyRow {
    if SameKey(r, row) then row.(id := r.id) else r
  }

  /** INSERT ... ON CONFLICT (service_id, algorithm, version) DO UPDATE; the old id stays. */
  function Upserted(t: Table, row: KeyRow): Table {
    if Conflicts(t, row) then seq(|t|, i requires 0 <= i < |t| => Overwritten(t[i], row)) else t + [row]
  }

  /** `map_key_row` gives a deprecated row half an hour from its `created_at`. */
  predicate PastGrace(r: KeyRow, now: nat) {
    r.status == Deprecated && r.createdAt + GRACE <= now
  }

  function ExpiredRow(r: KeyRow, now: nat, ids: set<nat>): KeyRow {
    if PastGrace(r, now) && r.id in ids then r.(status := Expired, isActive := false) else r
  }

  /** The expiration worker's updates; `ids` are those it got to before an error, or all. */
  function WithExpired(t: Table, now: nat, ids: set<nat>): Table {
    seq(|t|, i requires 0 <= i < |t| => ExpiredRow(t[i], now, ids))
  }

  function RewrappedRow(r: KeyRow, updates: map<nat, Sealed>): KeyRow {
    if r.id in updates then r.(secret := updates[r.id]) else r
  }

  /** `update_encrypted_keys_batch`. */
  function WithRewrapped(t: Table, updates: map<nat, Sealed>): Table {
    seq(|t|, i requires 0 <= i < |t| => RewrappedRow(t[i], updates))
  }

  // ---------------------------------------------------------------- operations

  datatype Reason = Scheduled | Manual | CompromisedKey

  /** Key material made outside: a fresh id, the wrapped private key and its public part. */
  datatype Material = Material(id: nat, secret: Sealed, publicKey: string)

  datatype Op =
    | Generate(p: Pair, purpose: Purpose, key: Material, now: nat, saved: bool)
    | Rotate(p: Pair, reason: Reason, key: Material, now: nat)
    | Ensure(p: Pair, purpose: Purpose, key: Material, now: nat)
    | Expire(now: nat, ids: set<nat>)
    | Rewrap(updates: map<nat, Sealed>, now: nat)

  function NewRow(p: Pair, version: nat, purpose: Purpose, key: Material, now: nat): KeyRow {
    KeyRow(key.id, p, version, key.secret, key.publicKey, purpose, Active, true, now)
  }

  function ActiveVersion(t: Table, p: Pair): nat {
    match ActiveRow(t, p)
    case None => 0
    case Some(r) => r.version
  }

  function RetiredStatus(reason: Reason): Status {
    if reason.CompromisedKey? then Compromised else Deprecated
  }

  /**
   What an operation leaves in the table. ECDSA_P256 is refused by all three that make keys,
   by `generate_key_pair` only after it has deactivated the old one.
   */
  function Done(t: Table, op: Op): Table {
    match op
    case Generate(p, purpose, key, now, saved) =>
      var cleared := if ActiveRow(t, p).Some? then Deactivated(t, p) else t;
      if p.algorithm.EcdsaP256? || !saved then cleared
      else Upserted(cleared, NewRow(p, ActiveVersion(t, p) + 1, purpose, key, now))
    case Rotate(p, reason, key, now) =>
      (match ActiveRow(t, p)
       case None => t
       case Some(current) =>
         if p.algorithm.EcdsaP256? then t
         else
           var row := NewRow(p, current.version + 1, current.purpose, key, now);
           Upserted(Retired(t, p, RetiredStatus(reason), now), row))
    case Ensure(p, purpose, key, now) =>
      if ActiveRow(t, p).Some? || p.algorithm.EcdsaP256? then t
      else Upserted(t, NewRow(p, 1, purpose, key, now))
    case Expire(now, ids) => WithExpired(t, now, ids)
    case Rewrap(updates, now) => WithRewrapped(t, updates)
  }

  function TableAfter(ops: seq<Op>): Table {
    if ops == [] then [] else Done(TableAfter(ops[..|ops| - 1]), ops[|ops| - 1])
  }
}
