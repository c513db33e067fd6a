/** The audit hash chain and its verifier (`verify_audit_handler`). */
module AuditChain {
  import opened Wrappers
  import opened Bytes
  import opened AuditPayload

  const DIGEST_LENGTH: nat := 64

  function Zeros(n: nat): (r: string)
    ensures |r| == n
  {
    if n == 0 then "" else "0" + Zeros(n - 1)
  }

  /** The hash before the first row: sixty-four zeros. */
  const GENESIS: string := Zeros(DIGEST_LENGTH)

  lemma {:induction false} ZerosAre(n: nat)
    ensures forall c :: c in Zeros(n) ==> c == '0'
  {
    if n > 0 {
      ZerosAre(n - 1);
    }
  }

  /** A stored row. Ids are 128-bit UUIDs as numbers; times are nanoseconds. */
  datatype Row = Row(
    id: nat, callerService: string, targetService: string, action: string, algorithm: string,
    status: string, reason: Option<string>, prevHash: string, hash: string, signature: Option<bytes>,
    requestId: Option<string>, operationId: Option<string>, targetId: Option<string>,
    metadata: Option<string>, createdAt: nat)

  /** Library functions: the hex SHA-256 digest, and the texts of a UUID and of an instant. */
  datatype Env = Env(sha: Digest, uuidText: nat -> string, rfc3339: nat -> string)

  /** A parsed public key is known by the (message, signature) pairs that `verify_strict` accepts. */
  type PublicKey = (string, bytes) -> bool

  function Input(env: Env, r: Row): HashInput {
    HashInput(env.uuidText(r.id), r.callerService, r.targetService, r.action, r.algorithm, r.status,
              r.reason, r.prevHash, env.rfc3339(r.createdAt), r.requestId, r.operationId, r.targetId, r.metadata)
  }

  function RowHash(env: Env, r: Row): string {
    env.sha(Payload(Input(env, r)))
  }

  /** Only 64-byte signatures are checked, and only when some signing key is active. */
  predicate SignatureOk(keys: seq<PublicKey>, r: Row) {
    r.signature.Some? && |r.signature.value| == 64 && keys != [] ==>
      exists k :: 0 <= k < |keys| && keys[k](r.hash, r.signature.value)
  }

  predicate RowOk(env: Env, keys: seq<PublicKey>, prev: string, r: Row) {
    r.prevHash == prev && RowHash(env, r) == r.hash && SignatureOk(keys, r)
  }

  function PrevHash(anchor: string, rows: seq<Row>, i: nat): string
    requires i <= |rows|
  {
    if i == 0 then anchor else rows[i - 1].hash
  }

  function LastHash(anchor: string, rows: seq<Row>): string {
    PrevHash(anchor, rows, |rows|)
  }

  predicate LinkOk(env: Env, keys: seq<PublicKey>, anchor: string, rows: seq<Row>, i: nat)
    requires i < |rows|
  {
    RowOk(env, keys, PrevHash(anchor, rows, i), rows[i])
  }

  /** Every row names the hash before it, carries its own hash and has an acceptable signature. */
  ghost predicate Chained(env: Env, keys: seq<PublicKey>, anchor: string, rows: seq<Row>) {
    forall i :: 0 <= i < |rows| ==> LinkOk(env, keys, anchor, rows, i)
  }

  // ---------------------------------------------------------------- the verifier

  datatype Violation =
    | PrevMismatch(id: nat, expected: string, got: string)
    | HashMismatch(id: nat, expected: string, got: string)
    | BadSignature(id: nat)

  datatype Report = Report(ok: bool, totalChecked: nat, okCount: nat, errors: seq<Violation>)

  function ViolationOf(env: Env, prev: string, r: Row): Violation {
    if r.prevHash != prev then PrevMismatch(r.id, prev, r.prevHash)
    else if RowHash(env, r) != r.hash then HashMismatch(r.id, r.hash, RowHash(env, r))
    else BadSignature(r.id)
  }

  /** The rows the verifier walks and the hash it starts from: the last `limit` rows, or all of them. */
  function Window(log: seq<Row>, limit: nat, full: bool): (string, seq<Row>) {
    if full || |log| <= limit then (GENESIS, log)
    else (log[|log| - limit - 1].hash, log[|log| - limit..])
  }

  /** `AuditQueries::list_recent`: newest first, one row more than asked, put back in order. */
  function ListRecent(log: seq<Row>, limit: nat, full: bool): seq<Row> {
    if full || |log| <= limit + 1 then log else log[|log| - (limit + 1)..]
  }

  ghost predicate FailsWith(
      env: Env, keys: seq<PublicKey>, anchor: string, rows: seq<Row>, i: nat, errors: seq<Violation>)
    requires i < |rows|
  {
    && !LinkOk(env, keys, anchor, rows, i)
    && errors == [ViolationOf(env, PrevHash(anchor, rows, i), rows[i])]
  }

  /** What a report says about the rows walked: it stops at the first bad one. */
  ghost predicate ReportFor(env: Env, keys: seq<PublicKey>, anchor: string, rows: seq<Row>, r: Report) {
    && r.okCount <= |rows|
    && (forall i :: 0 <= i < r.okCount ==> LinkOk(env, keys, anchor, rows, i))
    && r.ok == (r.okCount == |rows|)
    && (if r.ok then r.errors == []
        else FailsWith(env, keys, anchor, rows, r.okCount, r.errors))
    && r.totalChecked == r.okCount + |r.errors|
  }

  /** The digest of the stored fields, each under its own name. */
  function StoredDigest(env: Env, r: Row): string {
    env.sha(Payload(HashInput(
      env.uuidText(r.id), r.callerService, r.targetService, r.action, r.algorithm, r.status, r.reason,
      r.prevHash, env.rfc3339(r.createdAt), r.requestId, r.operationId, r.targetId, r.metadata)))
  }

  /** A 64-byte signature that none of the keys accepts, there being keys. */
  ghost predicate Forged(keys: seq<PublicKey>, r: Row) {
    && keys != [] && r.signature.Some? && |r.signature.value| == 64
    && forall k :: 0 <= k < |keys| ==> !keys[k](r.hash, r.signature.value)
  }

  method AnyKeyVerifies(keys: seq<PublicKey>, message: string, signature: bytes) returns (verified: bool)
    ensures verified <==> exists k :: 0 <= k < |keys| && keys[k](message, signature)
  {
    verified := false;
    for k := 0 to |keys|
      invariant !verified && forall j :: 0 <= j < k ==> !keys[j](message, signature)
    {
      if keys[k](message, signature) {
        return true;
      }
    }
  }

  /** The checks on one row, in the order the loop body makes them. */
  method CheckRow(env: Env, keys: seq<PublicKey>, lastHash: string, rec: Row) returns (error: Option<Violation>)
    ensures error == if RowOk(env, keys, lastHash, rec) then None else Some(ViolationOf(env, lastHash, rec))
    ensures error == None <==>
              rec.prevHash == lastHash && StoredDigest(env, rec) == rec.hash && !Forged(keys, rec)
    ensures rec.prevHash != lastHash ==> error == Some(PrevMismatch(rec.id, lastHash, rec.prevHash))
    ensures rec.prevHash == lastHash && StoredDigest(env, rec) != rec.hash ==>
              error == Some(HashMismatch(rec.id, rec.hash, StoredDigest(env, rec)))
    ensures rec.prevHash == lastHash && StoredDigest(env, rec) == rec.hash && Forged(keys, rec) ==>
              error == Some(BadSignature(rec.id))
  {
    if rec.prevHash != lastHash {
      return Some(PrevMismatch(rec.id, lastHash, rec.prevHash));
    }
    var computed := ComputeAuditHash(env.sha, Input(env, rec));
    if computed != rec.hash {
      return Some(HashMismatch(rec.id, rec.hash, computed));
    }
    if rec.signature.Some? && |rec.signature.value| == 64 && keys != [] {
      var verified := AnyKeyVerifies(keys, computed, rec.signature.value);
      if !verified {
        return Some(BadSignature(rec.id));
      }
    }
    return None;
  }

  /** The verifier's loop: count good rows from the anchor and stop at the first bad one. */
  method WalkChain(env: Env, keys: seq<PublicKey>, anchor: string, rows: seq<Row>) returns (report: Report)
    ensures ReportFor(env, keys, anchor, rows, report)
  {
    hide RowHash;
    hide ViolationOf;
    hide StoredDigest;
    hide Forged;
    var lastHash := anchor;
    var okCount := 0;
    var errors: seq<Violation> := [];
    while okCount < |rows| && errors == []
      invariant okCount <= |rows| && lastHash == PrevHash(anchor, rows, okCount)
      invariant forall j :: 0 <= j < okCount ==> LinkOk(env, keys, anchor, rows, j)
      invariant errors == [] || (okCount < |rows| && FailsWith(env, keys, anchor, rows, okCount, errors))
      decreases |rows| - okCount, |errors| == 0
    {
      var error := CheckRow(env, keys, lastHash, rows[okCount]);
      if error.Some? {
        errors := [error.value];
      } else {
        lastHash := rows[okCount].hash;
        okCount := okCount + 1;
      }
    }
    report := Report(errors == [], okCount + |errors|, okCount, errors);
  }

  /** `verify_audit_handler` over the ordered log. */
  method VerifyAudit(env: Env, keys: seq<PublicKey>, log: seq<Row>, limit: nat, full: bool)
    returns (report: Report)
    ensures ReportFor(env, keys, Window(log, limit, full).0, Window(log, limit, full).1, report)
  {
    var rows := ListRecent(log, limit, full);
    if rows == [] {
      return Report(true, 0, 0, []);
    }
    var anchor := GENESIS;
    if !full && |rows| > limit {
      anchor := rows[0].hash;
      rows := rows[1..];
    }
    report := WalkChain(env, keys, anchor, rows);
  }

  /** Two reports on the same rows are the same report, and it is positive exactly for a chain. */
  lemma {:induction false} ReportMeaning(
      env: Env, keys: seq<PublicKey>, anchor: string, rows: seq<Row>, r: Report, s: Report)
    requires ReportFor(env, keys, anchor, rows, r) && ReportFor(env, keys, anchor, rows, s)
    ensures r == s
    ensures r.ok <==> Chained(env, keys, anchor, rows)
  {
    if r.okCount < s.okCount {
      assert false;
    } else if s.okCount < r.okCount {
      assert false;
    }
  }

  // ---------------------------------------------------------------- windows

  // ---------------------------------------------------------------- what a report decides

  /** The first violation of row i, if it has one, in the order prev_hash, hash, signature. */
  ghost predicate Violates(env: Env, keys: seq<PublicKey>, anchor: string, rows: seq<Row>, i: nat, v: Violation)
    requires i < |rows|
  {
    var r, prev := rows[i], if i == 0 then anchor else rows[i - 1].hash;
    if r.prevHash != prev then v == PrevMismatch(r.id, prev, r.prevHash)
    else if StoredDigest(env, r) != r.hash then v == HashMismatch(r.id, r.hash, StoredDigest(env, r))
    else Forged(keys, r) && v == BadSignature(r.id)
  }

  /** Nothing is wrong with row i. */
  ghost predicate Passes(env: Env, keys: seq<PublicKey>, anchor: string, rows: seq<Row>, i: nat)
    requires i < |rows|
  {
    && rows[i].prevHash == (if i == 0 then anchor else rows[i - 1].hash)
    && StoredDigest(env, rows[i]) == rows[i].hash && !Forged(keys, rows[i])
  }

  lemma {:induction false} LinkDecides(env: Env, keys: seq<PublicKey>, anchor: string, rows: seq<Row>, i: nat)
    requires i < |rows|
    ensures LinkOk(env, keys, anchor, rows, i) <==> Passes(env, keys, anchor, rows, i)
    ensures !LinkOk(env, keys, anchor, rows, i) ==>
              Violates(env, keys, anchor, rows, i, ViolationOf(env, PrevHash(anchor, rows, i), rows[i]))
  {
    hide Payload;
  }

  /**
   A report is ok exactly when every walked row names the hash before it, carries the digest
   of its stored fields and, if it is signed and there are keys, a signature some key accepts.
   Otherwise it counts the rows before the first that fails and names what is wrong with that.
   */
  lemma {:induction false} ReportDecides(env: Env, keys: seq<PublicKey>, anchor: string, rows: seq<Row>, r: Report)
    requires ReportFor(env, keys, anchor, rows, r)
    ensures r.ok <==> forall i :: 0 <= i < |rows| ==> Passes(env, keys, anchor, rows, i)
    ensures r.ok ==> r.okCount == |rows| && r.errors == []
    ensures !r.ok ==>
              && r.okCount < |rows| && |r.errors| == 1 && r.totalChecked == r.okCount + 1
              && (forall i :: 0 <= i < r.okCount ==> Passes(env, keys, anchor, rows, i))
              && Violates(env, keys, anchor, rows, r.okCount, r.errors[0])
              && !Passes(env, keys, anchor, rows, r.okCount)
  {
    hide LinkOk;
    hide Passes;
    hide Violates;
    hide ViolationOf;
    forall i | 0 <= i < |rows| ensures LinkOk(env, keys, anchor, rows, i) <==> Passes(env, keys, anchor, rows, i) {
      LinkDecides(env, keys, anchor, rows, i);
    }
    if !r.ok {
      LinkDecides(env, keys, anchor, rows, r.okCount);
    }
  }

  lemma {:induction false} LinkSplit(env: Env, keys: seq<PublicKey>, anchor: string, a: seq<Row>, b: seq<Row>, i: nat)
    requires i < |a| + |b|
    ensures LinkOk(env, keys, anchor, a + b, i) <==>
            if i < |a| then LinkOk(env, keys, anchor, a, i)
            else LinkOk(env, keys, LastHash(anchor, a), b, i - |a|)
  {
  }

  /** A log is a chain exactly when a prefix is one and the rest is one from the prefix's last hash. */
  lemma {:induction false} ChainedSplit(env: Env, keys: seq<PublicKey>, anchor: string, a: seq<Row>, b: seq<Row>)
    ensures Chained(env, keys, anchor, a + b) <==>
            Chained(env, keys, anchor, a) && Chained(env, keys, LastHash(anchor, a), b)
  {
    forall i: nat | i < |a| + |b| {
      LinkSplit(env, keys, anchor, a, b, i);
    }
    if Chained(env, keys, anchor, a + b) {
      forall i | 0 <= i < |b| ensures LinkOk(env, keys, LastHash(anchor, a), b, i) {
        LinkSplit(env, keys, anchor, a, b, |a| + i);
        assert LinkOk(env, keys, anchor, a + b, |a| + i);
      }
    }
  }

  lemma {:induction false} SuffixAgrees(
      env: Env, keys: seq<PublicKey>, anchor: string, a: seq<Row>, b: seq<Row>, whole: Report, part: Report)
    requires ReportFor(env, keys, anchor, a + b, whole)
    requires ReportFor(env, keys, LastHash(anchor, a), b, part)
    ensures whole.ok <==> part.ok && Chained(env, keys, anchor, a)
  {
    ReportMeaning(env, keys, anchor, a + b, whole, whole);
    ReportMeaning(env, keys, LastHash(anchor, a), b, part, part);
    ChainedSplit(env, keys, anchor, a, b);
  }

  /**
   Windowed against full verification: a good log passes at every limit with
   `min(limit, n)` rows counted, a limit that covers the log gives the full verdict,
   and otherwise the log is good exactly when the window and the rows before it are.
   */
  lemma {:induction false} WindowAgrees(
      env: Env, keys: seq<PublicKey>, log: seq<Row>, limit: nat, whole: Report, part: Report)
    requires ReportFor(env, keys, GENESIS, log, whole)
    requires ReportFor(env, keys, Window(log, limit, false).0, Window(log, limit, false).1, part)
    ensures whole.ok ==> part.ok && part.okCount == (if limit < |log| then limit else |log|)
    ensures limit >= |log| ==> part == whole
    ensures limit < |log| ==> (whole.ok <==> part.ok && Chained(env, keys, GENESIS, log[..|log| - limit]))
  {
    hide LinkOk;
    hide FailsWith;
    if limit >= |log| {
      ReportMeaning(env, keys, GENESIS, log, whole, part);
    } else {
      var a, b := log[..|log| - limit], log[|log| - limit..];
      assert log == a + b;
      SuffixAgrees(env, keys, GENESIS, a, b, whole, part);
    }
  }

  // ---------------------------------------------------------------- what the last hash pins down

  /** Two rows with different payloads and the same digest. */
  ghost predicate Collide(env: Env, r: Row, s: Row) {
    Payload(Input(env, r)) != Payload(Input(env, s)) && RowHash(env, r) == RowHash(env, s)
  }

  /** The logs themselves exhibit a digest collision or a payload that digests to the anchor. */
  ghost predicate DigestBroken(env: Env, anchor: string, a: seq<Row>, b: seq<Row>) {
    || (exists i, j :: 0 <= i < |a| && 0 <= j < |b| && Collide(env, a[i], b[j]))
    || (exists i :: 0 <= i < |a| && RowHash(env, a[i]) == anchor)
    || (exists i :: 0 <= i < |b| && RowHash(env, b[i]) == anchor)
  }

  /** The rows agree in every hashed field, ids and instants as far as their texts tell. */
  ghost predicate SameRecord(env: Env, r: Row, s: Row) {
    && env.uuidText(r.id) == env.uuidText(s.id) && env.rfc3339(r.createdAt) == env.rfc3339(s.createdAt)
    && r.callerService == s.callerService && r.targetService == s.targetService && r.action == s.action
    && r.algorithm == s.algorithm && r.status == s.status && r.reason == s.reason && r.prevHash == s.prevHash
    && r.requestId == s.requestId && r.operationId == s.operationId && r.targetId == s.targetId
    && r.metadata == s.metadata && r.hash == s.hash
  }

  ghost predicate SameRecords(env: Env, a: seq<Row>, b: seq<Row>) {
    |a| == |b| && forall i :: 0 <= i < |a| ==> SameRecord(env, a[i], b[i])
  }

  lemma {:induction false} LastRowOk(env: Env, keys: seq<PublicKey>, anchor: string, rows: seq<Row>, r: Row)
    requires Chained(env, keys, anchor, rows + [r])
    ensures Chained(env, keys, anchor, rows)
    ensures r.prevHash == LastHash(anchor, rows) && RowHash(env, r) == r.hash
  {
    ChainedSplit(env, keys, anchor, rows, [r]);
    assert LinkOk(env, keys, LastHash(anchor, rows), [r], 0);
  }

  /** Rows with equal hashes were digested from equal inputs, or they collide. */
  lemma {:induction false} SameHashSameInput(env: Env, r: Row, s: Row)
    requires RowHash(env, r) == r.hash == s.hash == RowHash(env, s)
    ensures SameRecord(env, r, s) || Collide(env, r, s)
  {
    if Payload(Input(env, r)) == Payload(Input(env, s)) {
      PayloadInjective(Input(env, r), Input(env, s));
    }
  }

  lemma {:induction false} PrevHashDetermined(env: Env, r: Row, s: Row)
    requires SameRecord(env, r, s)
    ensures r.prevHash == s.prevHash
  {
  }

  /**
   Two verified logs with the same last hash have the same length and the same hashed
   fields in every row, unless their own rows show a digest collision.
   */
  lemma {:induction false} LogDetermined(
      env: Env, keysA: seq<PublicKey>, keysB: seq<PublicKey>, anchor: string, a: seq<Row>, b: seq<Row>)
    requires Chained(env, keysA, anchor, a) && Chained(env, keysB, anchor, b)
    requires LastHash(anchor, a) == LastHash(anchor, b)
    ensures SameRecords(env, a, b) || DigestBroken(env, anchor, a, b)
    decreases |a|
  {
    hide Payload;
    if a == [] && b == [] {
    } else if a == [] {
      assert LinkOk(env, keysB, anchor, b, |b| - 1);
    } else if b == [] {
      assert LinkOk(env, keysA, anchor, a, |a| - 1);
    } else {
      var m, n := |a| - 1, |b| - 1;
      var a', b', r, s := a[..m], b[..n], a[m], b[n];
      assert a == a' + [r] && b == b' + [s];
      LastRowOk(env, keysA, anchor, a', r);
      LastRowOk(env, keysB, anchor, b', s);
      SameHashSameInput(env, r, s);
      if SameRecord(env, r, s) {
        PrevHashDetermined(env, r, s);
        LogDetermined(env, keysA, keysB, anchor, a', b');
        BrokenGrows(env, anchor, a', b', r, s);
      } else {
        assert Collide(env, a[m], b[n]);
      }
    }
  }

  lemma {:induction false} BrokenGrows(env: Env, anchor: string, a: seq<Row>, b: seq<Row>, r: Row, s: Row)
    ensures DigestBroken(env, anchor, a, b) ==> DigestBroken(env, anchor, a + [r], b + [s])
  {
    if DigestBroken(env, anchor, a, b) {
      if i, j :| 0 <= i < |a| && 0 <= j < |b| && Collide(env, a[i], b[j]) {
        assert Collide(env, (a + [r])[i], (b + [s])[j]);
      } else if i :| 0 <= i < |a| && RowHash(env, a[i]) == anchor {
        assert RowHash(env, (a + [r])[i]) == anchor;
      } else {
        var i :| 0 <= i < |b| && RowHash(env, b[i]) == anchor;
        assert RowHash(env, (b + [s])[i]) == anchor;
      }
    }
  }
}
