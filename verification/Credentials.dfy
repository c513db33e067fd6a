/**
 Issuing database credentials to agents (`IssueAgentCredentialUseCase::execute`), one request
 at a time. Times are nanoseconds; what the request brings from outside is part of it.
 */
module Credentials {
  import opened Wrappers
  import opened Bytes
  import opened Timestamps

  // ---------------------------------------------------------------- the table

  datatype ProvisioningStatus = Pending | Provisioning | Active | Failed | Revoking

  datatype Credential = Credential(
    id: nat, service: string, target: nat, sealed: bytes, expiresAt: nat, revoked: bool,
    status: ProvisioningStatus, createdAt: nat)

  type Table = seq<Credential>

  predicate Of(r: Credential, service: string, target: nat) {
    r.service == service && r.target == target
  }

  predicate Usable(r: Credential, service: string, target: nat, now: nat) {
    Of(r, service, target) && !r.revoked && r.status.Active? && r.expiresAt > now
  }

  predicate Newer(r: Credential, s: Credential) {
    r.createdAt > s.createdAt || (r.createdAt == s.createdAt && r.id > s.id)
  }

  /** `fetch_latest_active_provisioned_credential_for_service_target`. */
  function Latest(t: Table, service: string, target: nat, now: nat): (r: Option<Credential>)
    ensures r.Some? ==> r.value in t && Usable(r.value, service, target, now)
    ensures r.Some? ==> forall i :: 0 <= i < |t| && Usable(t[i], service, target, now) ==> !Newer(t[i], r.value)
    ensures r.None? ==> forall i :: 0 <= i < |t| ==> !Usable(t[i], service, target, now)
  {
    if t == [] then None
    else
      var n := |t| - 1;
      var before := Latest(t[..n], service, target, now);
      if Usable(t[n], service, target, now) && (before.None? || !Newer(before.value, t[n])) then Some(t[n]) else before
  }

  function RevokedRow(r: Credential, service: string, target: nat): Credential {
    if Of(r, service, target) && !r.revoked then r.(revoked := true) else r
  }

  /** `revoke_active_credentials_for_target`. */
  function Revoked(t: Table, service: string, target: nat): Table {
    seq(|t|, i requires 0 <= i < |t| => RevokedRow(t[i], service, target))
  }

  /** `update_provisioned_credential_status`. */
  function StatusSet(t: Table, id: nat, status: ProvisioningStatus): Table {
    seq(|t|, i requires 0 <= i < |t| => if t[i].id == id then t[i].(status := status) else t[i])
  }

  predicate Taken(t: Table, id: nat) {
    exists i :: 0 <= i < |t| && t[i].id == id
  }

  // ---------------------------------------------------------------- a request

  /** The JSON payload; `open` tells apart a failed decryption and a plaintext that is no payload. */
  datatype Payload = Payload(username: string, password: string)

  datatype Unsealed = Undecryptable | NotPayload(base64: string) | Parsed(payload: Payload)

  datatype Vault = Vault(seal: (Payload, nat) -> Option<bytes>, open: bytes -> Unsealed)

  function Seal(v: Vault, payload: Payload, nonce: nat): Option<bytes> {
    v.seal(payload, nonce)
  }

  function Unseal(v: Vault, sealed: bytes): Unsealed {
    v.open(sealed)
  }

  ghost predicate Sound(v: Vault) {
    forall payload, nonce: nat :: Seal(v, payload, nonce).Some? ==>
      Unseal(v, Seal(v, payload, nonce).value) == Parsed(payload)
  }

  /** Where a request can fail for reasons outside the table, in order; the first four come before the replay. */
  datatype Stage =
    | Acl | Target | Connection | Lookup
    | Kek | Generate | Begin | Revoke | Insert | Provider | Decode | CreateUser | Status | Audit | Commit

  /** `now` is the database clock at the lookup, `insertedAt` the row's creation time. */
  datatype Request = Request(
    caller: string, target: nat, ttl: nat, createdAt: nat, now: nat, insertedAt: nat,
    id: nat, username: string, password: string, nonce: nat, fails: Option<Stage>)

  datatype Output = Output(id: nat, username: string, password: string, expiresAt: nat)

  predicate Refused(q: Request) {
    q.fails == Some(Acl) || q.fails == Some(Target) || q.fails == Some(Connection) || q.fails == Some(Lookup)
  }

  function Found(t: Table, q: Request): Option<Credential> {
    Latest(t, q.caller, q.target, q.now)
  }

  predicate Issues(v: Vault, t: Table, q: Request) {
    q.fails.None? && Found(t, q).None? && Seal(v, Payload(q.username, q.password), q.nonce).Some? && !Taken(t, q.id)
  }

  function NewRow(v: Vault, q: Request): Credential
    requires Seal(v, Payload(q.username, q.password), q.nonce).Some?
  {
    Credential(
      q.id, q.caller, q.target, Seal(v, Payload(q.username, q.password), q.nonce).value,
      StoredTime(q.createdAt + q.ttl), false, Active, StoredTime(q.insertedAt))
  }

  function After(v: Vault, t: Table, q: Request): Table {
    if Issues(v, t, q) then Revoked(t, q.caller, q.target) + [NewRow(v, q)] else t
  }

  /** None stands for the error. */
  function Reply(v: Vault, t: Table, q: Request): Option<Output> {
    if Refused(q) then None
    else match Found(t, q)
         case None => if Issues(v, t, q) then Some(Output(q.id, q.username, q.password, q.createdAt + q.ttl)) else None
         case Some(r) =>
           match Unseal(v, r.sealed)
           case Undecryptable => None
           case NotPayload(base64) => Some(Output(r.id, "", base64, r.expiresAt))
           case Parsed(payload) => Some(Output(r.id, payload.username, payload.password, r.expiresAt))
  }

  function AfterAll(v: Vault, t: Table, run: seq<Request>): Table {
    if run == [] then t else After(v, AfterAll(v, t, run[..|run| - 1]), run[|run| - 1])
  }

  // ---------------------------------------------------------------- what a request comes to

  /** Row `i` is the caller's for the target, unrevoked, active and not expired at the lookup. */
  predicate LiveAt(t: Table, q: Request, i: int) {
    && 0 <= i < |t| && t[i].service == q.caller && t[i].target == q.target
    && !t[i].revoked && t[i].status == Active && q.now < t[i].expiresAt
  }

  ghost predicate NewestLiveAt(t: Table, q: Request, i: int) {
    LiveAt(t, q, i) &&
    forall j :: LiveAt(t, q, j) ==>
      t[j].createdAt < t[i].createdAt || (t[j].createdAt == t[i].createdAt && t[j].id <= t[i].id)
  }

  /** The credential of a stored row, as a repeated request gets it. */
  ghost predicate Replays(v: Vault, row: Credential, r: Option<Output>) {
    match Unseal(v, row.sealed)
    case Undecryptable => r == None
    case NotPayload(base64) => r == Some(Output(row.id, "", base64, row.expiresAt))
    case Parsed(payload) => r == Some(Output(row.id, payload.username, payload.password, row.expiresAt))
  }

  /** A credential can be made, stored and committed. */
  ghost predicate CanIssue(v: Vault, t: Table, q: Request) {
    && q.fails == None && Seal(v, Payload(q.username, q.password), q.nonce).Some?
    && forall i :: 0 <= i < |t| ==> t[i].id != q.id
  }

  /** `u` is `t` with the caller's rows for the target revoked and the new row last. */
  ghost predicate IssuedInto(v: Vault, t: Table, q: Request, u: Table) {
    && |u| == |t| + 1
    && (forall i :: 0 <= i < |t| ==>
          && u[i] == t[i].(revoked := u[i].revoked)
          && (u[i].revoked <==> t[i].revoked || (t[i].service == q.caller && t[i].target == q.target)))
    && var row := u[|t|];
       && row.id == q.id && row.service == q.caller && row.target == q.target && !row.revoked && row.status == Active
       && Seal(v, Payload(q.username, q.password), q.nonce) == Some(row.sealed)
       && row.expiresAt % 1000 == 0 && row.expiresAt <= q.createdAt + q.ttl < row.expiresAt + 1000
       && row.createdAt % 1000 == 0 && row.createdAt <= q.insertedAt < row.createdAt + 1000
  }

  /** Refused early, answered from the newest live row, issued, or failed; only issuing changes the table. */
  ghost predicate Outcome(v: Vault, t: Table, q: Request, u: Table, r: Option<Output>) {
    if q.fails in [Some(Acl), Some(Target), Some(Connection), Some(Lookup)] then r == None && u == t
    else if exists i :: LiveAt(t, q, i) then u == t && exists i :: NewestLiveAt(t, q, i) && Replays(v, t[i], r)
    else if CanIssue(v, t, q)
      then IssuedInto(v, t, q, u) && r == Some(Output(q.id, q.username, q.password, q.createdAt + q.ttl))
    else r == None && u == t
  }

  lemma FoundIs(t: Table, q: Request)
    ensures Found(t, q).Some? <==> exists i :: LiveAt(t, q, i)
    ensures Found(t, q).Some? ==> exists i :: NewestLiveAt(t, q, i) && t[i] == Found(t, q).value
  {
    if i :| LiveAt(t, q, i) {
      assert Usable(t[i], q.caller, q.target, q.now);
    }
    if Found(t, q).Some? {
      var i :| 0 <= i < |t| && t[i] == Found(t, q).value;
      forall j | LiveAt(t, q, j) ensures !Newer(t[j], t[i]) {
        assert Usable(t[j], q.caller, q.target, q.now);
      }
      assert NewestLiveAt(t, q, i);
    }
  }

  lemma {:induction false} OutcomeIs(v: Vault, t: Table, q: Request)
    ensures Outcome(v, t, q, After(v, t, q), Reply(v, t, q))
  {
    FoundIs(t, q);
    hide Found;
    hide NewestLiveAt;
  }

  class CredentialStore {
    const v: Vault
    // The committed rows of provisioned_credentials.
    var rows: Table

    constructor (v: Vault)
      ensures this.v == v && rows == []
    {
      this.v := v;
      rows := [];
    }

    /** A failed request leaves the committed rows alone; a fresh one revokes, inserts, activates and commits. */
    method Execute(q: Request) returns (r: Option<Output>)
      modifies this`rows
      ensures rows == After(v, old(rows), q) && r == Reply(v, old(rows), q)
      ensures Outcome(v, old(rows), q, rows, r)
      ensures r.None? ==> rows == old(rows)
    {
      OutcomeIs(v, rows, q);
      hide Outcome;
      if q.fails == Some(Acl) || q.fails == Some(Target) || q.fails == Some(Connection) {
        return None;
      }
      var expiresAt := q.createdAt + q.ttl;
      if q.fails == Some(Lookup) {
        return None;
      }
      var active := Latest(rows, q.caller, q.target, q.now);
      if active.Some? {
        match Unseal(v, active.value.sealed) {
          case Undecryptable => return None;
          case NotPayload(base64) => return Some(Output(active.value.id, "", base64, active.value.expiresAt));
          case Parsed(p) => return Some(Output(active.value.id, p.username, p.password, active.value.expiresAt));
        }
      }
      if q.fails == Some(Kek) || q.fails == Some(Generate) || q.fails == Some(Begin) || q.fails == Some(Revoke) {
        return None;
      }
      var tx := Revoked(rows, q.caller, q.target);
      var sealed := Seal(v, Payload(q.username, q.password), q.nonce);
      if sealed.None? || q.fails == Some(Insert) || Taken(tx, q.id) {
        TakenAfterRevoke(rows, q.caller, q.target, q.id);
        return None;
      }
      TakenAfterRevoke(rows, q.caller, q.target, q.id);
      var stored := StoredTime(expiresAt);
      tx := tx + [Credential(
          q.id, q.caller, q.target, sealed.value, stored, false, Provisioning, StoredTime(q.insertedAt))];
      if q.fails == Some(Provider) || q.fails == Some(Decode) {
        return None;
      }
      if q.fails == Some(CreateUser) {
        tx := StatusSet(tx, q.id, Failed);
        return None;
      }
      if q.fails == Some(Status) {
        return None;
      }
      tx := StatusSet(tx, q.id, Active);
      if q.fails.Some? {
        // Audit or Commit
        return None;
      }
      ActivatedIs(Revoked(rows, q.caller, q.target), NewRow(v, q));
      rows := tx;
      r := Some(Output(q.id, q.username, q.password, expiresAt));
    }
  }

  /** Activating the row just inserted touches no other. */
  lemma ActivatedIs(t: Table, row: Credential)
    requires !Taken(t, row.id) && row.status.Active?
    ensures StatusSet(t + [row.(status := Provisioning)], row.id, Active) == t + [row]
  {
  }

  lemma TakenAfterRevoke(t: Table, service: string, target: nat, id: nat)
    ensures Taken(Revoked(t, service, target), id) <==> Taken(t, id)
  {
    var u := Revoked(t, service, target);
    assert forall i :: 0 <= i < |t| ==> u[i].id == t[i].id;
  }

  // ---------------------------------------------------------------- every run

  /** At most one unrevoked row per caller and target, all active, each id once. */
  ghost predicate Sane(t: Table) {
    && (forall i, j :: 0 <= i < j < |t| ==> t[i].id != t[j].id)
    && (forall i :: 0 <= i < |t| ==> t[i].status.Active?)
    && (forall i, j :: 0 <= i < j < |t| && !t[i].revoked && !t[j].revoked ==> !Of(t[i], t[j].service, t[j].target))
  }

  lemma {:induction false} StepSane(v: Vault, t: Table, q: Request)
    requires Sane(t)
    ensures Sane(After(v, t, q))
  {
  }

  lemma {:induction false} RunSane(v: Vault, t: Table, run: seq<Request>)
    requires Sane(t)
    ensures Sane(AfterAll(v, t, run))
    decreases |run|
  {
    if run != [] {
      RunSane(v, t, run[..|run| - 1]);
      StepSane(v, AfterAll(v, t, run[..|run| - 1]), run[|run| - 1]);
    }
  }

  /** Any error leaves the table as it was. */
  lemma {:induction false} ErrorsChangeNothing(v: Vault, t: Table, q: Request)
    ensures Reply(v, t, q).None? ==> After(v, t, q) == t
    ensures After(v, t, q) != t ==> Reply(v, t, q) == Some(Output(q.id, q.username, q.password, q.createdAt + q.ttl))
  {
  }

  // ---------------------------------------------------------------- repeats

  /** The row stays where it is, with its id and expiry. */
  lemma {:induction false} RowStays(v: Vault, t: Table, run: seq<Request>, i: nat)
    requires i < |t|
    ensures i < |AfterAll(v, t, run)|
    ensures var r := AfterAll(v, t, run)[i]; r.id == t[i].id && r.expiresAt == t[i].expiresAt
    decreases |run|
  {
    if run != [] {
      RowStays(v, t, run[..|run| - 1], i);
    }
  }

  lemma UsableIsLatest(t: Table, i: nat, service: string, target: nat, now: nat)
    requires Sane(t) && i < |t| && Usable(t[i], service, target, now)
    ensures Latest(t, service, target, now) == Some(t[i])
  {
    var r := Latest(t, service, target, now).value;
    var j :| 0 <= j < |t| && t[j] == r;
    assert Of(t[j], t[i].service, t[i].target);
  }

  /** Until it expires an unrevoked row is not touched, whoever asks. */
  lemma {:induction false} RowKept(v: Vault, t: Table, run: seq<Request>, i: nat, now: nat)
    requires Sane(t) && i < |t| && !t[i].revoked && now < t[i].expiresAt
    requires forall k :: 0 <= k < |run| ==> run[k].now <= now
    ensures i < |AfterAll(v, t, run)| && AfterAll(v, t, run)[i] == t[i]
    decreases |run|
  {
    if run != [] {
      var n := |run| - 1;
      RowKept(v, t, run[..n], i, now);
      RunSane(v, t, run[..n]);
      var u := AfterAll(v, t, run[..n]);
      if Of(u[i], run[n].caller, run[n].target) {
        UsableIsLatest(u, i, run[n].caller, run[n].target, run[n].now);
      }
    }
  }

  lemma {:induction false} ReplayOf(v: Vault, t: Table, i: nat, q: Request, payload: Payload)
    requires Sane(t) && i < |t| && Usable(t[i], q.caller, q.target, q.now) && !Refused(q)
    requires Unseal(v, t[i].sealed) == Parsed(payload)
    ensures Reply(v, t, q) == Some(Output(t[i].id, payload.username, payload.password, t[i].expiresAt))
  {
    UsableIsLatest(t, i, q.caller, q.target, q.now);
  }

  lemma {:induction false} OtherIdOnceExpired(v: Vault, t: Table, i: nat, q: Request)
    requires Sane(t) && i < |t| && t[i].expiresAt <= q.now && Reply(v, t, q).Some?
    ensures Reply(v, t, q).value.id != t[i].id
  {
    if Found(t, q).Some? {
      var j :| 0 <= j < |t| && t[j] == Found(t, q).value;
    }
  }

  /**
   A repeat, after any other requests up to its own time, returns the same id, username and
   password exactly while the stored expiry lies ahead. The expiry it returns is the stored
   one, so the whole answer is identical exactly when that was a whole number of microseconds.
   */
  lemma {:induction false} RepeatIdenticalIff(v: Vault, t: Table, q: Request, others: seq<Request>, again: Request)
    requires Sane(t) && Sound(v) && Issues(v, t, q)
    requires again.caller == q.caller && again.target == q.target && !Refused(again)
    requires forall k :: 0 <= k < |others| ==> others[k].now <= again.now
    ensures var first := Reply(v, t, q).value;
            var second := Reply(v, AfterAll(v, After(v, t, q), others), again);
            var expiry := StoredTime(first.expiresAt);
            && (second == Some(first.(expiresAt := expiry)) <==> again.now < expiry)
            && (second.Some? && second.value.id == first.id ==> again.now < expiry)
            && (second == Some(first) <==> again.now < expiry && expiry == first.expiresAt)
  {
    var u, i := After(v, t, q), |t|;
    var w := AfterAll(v, u, others);
    var payload := Payload(q.username, q.password);
    assert u[i] == NewRow(v, q);
    StepSane(v, t, q);
    RunSane(v, u, others);
    RowStays(v, u, others, i);
    if again.now < u[i].expiresAt {
      RowKept(v, u, others, i, again.now);
      ReplayOf(v, w, i, again, payload);
    } else if Reply(v, w, again).Some? {
      OtherIdOnceExpired(v, w, i, again);
    }
  }
}
