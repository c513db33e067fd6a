/**
 The writers of the audit log, one after another, and when the log they leave verifies.
 `audit_logs` is kept here in its query order, (created_at, id) ascending.
 */
module AuditRuns {
  import opened Wrappers
  import opened AuditPayload
  import opened AuditChain
  import opened ReasonSanitizer
  import opened Text
  import opened Timestamps

  /** One append. `at` is the instant that is hashed, `id` the stored row id. */
  datatype Write =
    | Record(id: nat, at: nat, caller: string, target: string, action: string, algorithm: string,
             status: string, reason: Option<string>, requestId: Option<string>,
             operationId: Option<string>, targetId: Option<string>, metadata: Option<string>)
    | Ceremony(id: nat, at: nat, operation: string, requested: Option<string>, ceremonyId: string, manifest: string)
    | RootCa(id: nat, at: nat, keyAlgorithm: string, ceremonyId: string, rootCaId: string, manifest: string)
    | Import(id: nat, at: nat, caller: string, imported: nat)
    | Provision(id: nat, at: nat, caller: string, target: string, action: string, credentialId: nat)

  function Decimal(n: nat): string {
    if n < 10 then ["0123456789"[n]] else Decimal(n / 10) + ["0123456789"[n % 10]]
  }

  function AlgorithmName(requested: string): string {
    if Blank(requested) then "ECDSA_P256" else requested
  }

  /** What the writer hashes, as a row: its own id and instant, before the store has seen either. */
  function Hashed(env: Env, w: Write, prev: string): Row {
    match w
    case Record(id, at, caller, target, action, algorithm, status, reason, request, operation, targetId, metadata) =>
      Row(id, caller, target, action, algorithm, status, Sanitized(reason), prev, "", None,
          request, operation, targetId, metadata, at)
    case Ceremony(id, at, operation, requested, ceremonyId, manifest) =>
      Row(id, "kms-service", "ceremony", operation, AlgorithmName(if requested.Some? then requested.value else ""),
          "RECORDED", None, prev, "", Some([]), None, Some(ceremonyId), None, Some(manifest), at)
    case RootCa(id, at, keyAlgorithm, ceremonyId, rootCaId, manifest) =>
      Row(id, "kms-ceremony-cli", "kms-service", "ca_init", AlgorithmName(keyAlgorithm),
          "RECORDED", None, prev, "", None, None, Some(ceremonyId), Some(rootCaId), Some(manifest), at)
    case Import(id, at, caller, imported) =>
      Row(id, caller, "bootstrap", "bootstrap:import", "bootstrap-import", "Success",
          Some("imported " + Decimal(imported) + " total records (resources + credentials)"),
          prev, "", Some([]), None, None, None, Some("bootstrap_import_v2"), at)
    case Provision(id, at, caller, target, action, credentialId) =>
      Row(credentialId, caller, target, action, "db-credentials", "Success", Some("agent credential provisioned"),
          prev, "", Some([]), None, None, Some(env.uuidText(credentialId)), Some("credential_provisioned"), at)
  }

  function RowFor(env: Env, w: Write, prev: string): Row {
    var d := Hashed(env, w, prev);
    d.(id := w.id, createdAt := StoredTime(w.at), hash := RowHash(env, d))
  }

  /** What a writer takes as the previous hash when the log is empty. */
  function Fallback(w: Write): string {
    if w.Record? || w.RootCa? then GENESIS else ""
  }

  predicate Precedes(t: nat, i: nat, u: nat, j: nat) {
    t < u || (t == u && i < j)
  }

  predicate RowBefore(r: Row, s: Row) {
    Precedes(r.createdAt, r.id, s.createdAt, s.id)
  }

  /** The query order after one more row: the row goes where its (created_at, id) puts it. */
  function Place(log: seq<Row>, r: Row): seq<Row> {
    if log == [] || RowBefore(log[|log| - 1], r) then log + [r]
    else Place(log[..|log| - 1], r) + [log[|log| - 1]]
  }

  function PrevFor(w: Write, log: seq<Row>): string {
    if log == [] then Fallback(w) else log[|log| - 1].hash
  }

  function Append(env: Env, log: seq<Row>, w: Write): seq<Row> {
    Place(log, RowFor(env, w, PrevFor(w, log)))
  }

  function LogOf(env: Env, ws: seq<Write>): seq<Row> {
    if ws == [] then [] else Append(env, LogOf(env, ws[..|ws| - 1]), ws[|ws| - 1])
  }

  // ---------------------------------------------------------------- the log of a run

  ghost predicate Sorted(log: seq<Row>) {
    forall i, j :: 0 <= i < j < |log| ==> RowBefore(log[i], log[j])
  }

  /** `id` is the table's primary key. */
  ghost predicate DistinctIds(ws: seq<Write>) {
    forall i, j :: 0 <= i < j < |ws| ==> ws[i].id != ws[j].id
  }

  lemma {:induction false} PlaceIs(log: seq<Row>, r: Row) returns (p: nat)
    requires Sorted(log) && forall i :: 0 <= i < |log| ==> log[i].id != r.id
    ensures p <= |log| && Place(log, r) == log[..p] + [r] + log[p..]
    ensures forall i :: 0 <= i < p ==> RowBefore(log[i], r)
    ensures forall i :: p <= i < |log| ==> RowBefore(r, log[i])
    decreases |log|
  {
    if log == [] || RowBefore(log[|log| - 1], r) {
      p := |log|;
      assert log[..p] + [r] + log[p..] == log + [r];
    } else {
      var front, last := log[..|log| - 1], log[|log| - 1];
      p := PlaceIs(front, r);
      assert RowBefore(r, last);
      assert log[..p] == front[..p] && log[p..] == front[p..] + [last];
      forall i | p <= i < |log| ensures RowBefore(r, log[i]) {
        assert i < |front| ==> log[i] == front[i];
      }
    }
  }

  lemma PlaceSorted(log: seq<Row>, r: Row)
    requires Sorted(log) && forall i :: 0 <= i < |log| ==> log[i].id != r.id
    ensures Sorted(Place(log, r))
  {
    var p := PlaceIs(log, r);
    var placed := Place(log, r);
    forall i, j | 0 <= i < j < |placed| ensures RowBefore(placed[i], placed[j]) {
      assert j < p ==> RowBefore(log[i], log[j]);
      assert i > p ==> RowBefore(log[i - 1], log[j - 1]);
    }
  }

  lemma LatestIsLast(log: seq<Row>, hash: Option<string>)
    requires Sorted(log) && (hash.None? <==> log == [])
    requires hash.Some? ==>
               exists i :: 0 <= i < |log| && log[i].hash == hash.value &&
                           forall j :: 0 <= j < |log| && j != i ==> RowBefore(log[j], log[i])
    ensures hash.Some? ==> hash.value == log[|log| - 1].hash
  {
    if hash.Some? {
      var i :| 0 <= i < |log| && log[i].hash == hash.value &&
        forall j :: 0 <= j < |log| && j != i ==> RowBefore(log[j], log[i]);
      var last := log[|log| - 1];
      assert i != |log| - 1 ==> RowBefore(log[i], last);
    }
  }

  // ---------------------------------------------------------------- what every write leaves

  /** The columns that say who did what to whom, by writer. */
  ghost predicate StoredNames(w: Write, r: Row) {
    match w
    case Record(_, _, caller, target, action, algorithm, status, _, _, _, _, _) =>
      && r.callerService == caller && r.targetService == target && r.action == action
      && r.algorithm == algorithm && r.status == status
    case Ceremony(_, _, operation, requested, _, _) =>
      && r.callerService == "kms-service" && r.targetService == "ceremony" && r.action == operation
      && (requested.None? || Trimmed(requested.value) == "" ==> r.algorithm == "ECDSA_P256")
      && (requested.Some? && Trimmed(requested.value) != "" ==> r.algorithm == requested.value)
      && r.status == "RECORDED"
    case RootCa(_, _, algorithm, _, _, _) =>
      && r.callerService == "kms-ceremony-cli" && r.targetService == "kms-service" && r.action == "ca_init"
      && r.algorithm == (if Trimmed(algorithm) == "" then "ECDSA_P256" else algorithm) && r.status == "RECORDED"
    case Import(_, _, caller, _) =>
      && r.callerService == caller && r.targetService == "bootstrap" && r.action == "bootstrap:import"
      && r.algorithm == "bootstrap-import" && r.status == "Success"
    case Provision(_, _, caller, target, action, _) =>
      && r.callerService == caller && r.targetService == target && r.action == action
      && r.algorithm == "db-credentials" && r.status == "Success"
  }

  /** The optional columns, by writer. Only `record` takes a reason from outside, and it is cleaned. */
  ghost predicate StoredDetails(env: Env, w: Write, r: Row) {
    match w
    case Record(_, _, _, _, _, _, _, reason, request, operation, targetId, metadata) =>
      && r.requestId == request && r.operationId == operation && r.targetId == targetId
      && r.metadata == metadata && r.signature == None
      && (r.reason.None? <==> reason.None? || Trimmed(reason.value) == "")
      && (r.reason.Some? ==> Clean(r.reason.value) && (Clean(reason.value) ==> r.reason == reason))
    case Ceremony(_, _, _, _, ceremonyId, manifest) =>
      && r.reason == None && r.requestId == None && r.operationId == Some(ceremonyId) && r.targetId == None
      && r.metadata == Some(manifest) && r.signature == Some([])
    case RootCa(_, _, _, ceremonyId, rootCaId, manifest) =>
      && r.reason == None && r.requestId == None && r.operationId == Some(ceremonyId)
      && r.targetId == Some(rootCaId) && r.metadata == Some(manifest) && r.signature == None
    case Import(_, _, _, imported) =>
      && r.reason == Some("imported " + Decimal(imported) + " total records (resources + credentials)")
      && r.requestId == None && r.operationId == None && r.targetId == None
      && r.metadata == Some("bootstrap_import_v2") && r.signature == Some([])
    case Provision(_, _, _, _, _, credentialId) =>
      && r.reason == Some("agent credential provisioned") && r.requestId == None && r.operationId == None
      && r.targetId == Some(env.uuidText(credentialId)) && r.metadata == Some("credential_provisioned")
      && r.signature == Some([])
  }

  /** The row keeps the id and the whole microseconds; the hash is of the instant as it was. */
  ghost predicate StoredChain(env: Env, w: Write, prev: string, r: Row) {
    && r.id == w.id && r.createdAt % 1000 == 0 && r.createdAt <= w.at < r.createdAt + 1000
    && r.prevHash == prev
    && r.hash == env.sha(Payload(HashInput(
         env.uuidText(if w.Provision? then w.credentialId else w.id), r.callerService, r.targetService, r.action,
         r.algorithm, r.status, r.reason, prev, env.rfc3339(w.at), r.requestId, r.operationId, r.targetId,
         r.metadata)))
  }

  lemma {:induction false} RowNames(env: Env, w: Write, prev: string)
    ensures StoredNames(w, RowFor(env, w, prev))
  {
    hide RowHash;
    match w
    case Ceremony(_, _, _, requested, _, _) => BlankIsTrimmed(if requested.Some? then requested.value else "");
    case RootCa(_, _, algorithm, _, _, _) => BlankIsTrimmed(algorithm);
    case _ =>
  }

  lemma {:induction false} RowDetails(env: Env, w: Write, prev: string)
    ensures StoredDetails(env, w, RowFor(env, w, prev))
  {
    hide RowHash;
    hide Sanitized;
    hide Clean;
    hide Decimal;
    if w.Record? {
      SanitizedIsClean(w.reason);
      if w.reason.Some? {
        SanitizedUnchangedIff(w.reason.value);
      }
    }
  }

  lemma {:induction false} RowChain(env: Env, w: Write, prev: string)
    ensures StoredChain(env, w, prev, RowFor(env, w, prev))
  {
    hide Payload;
    hide Sanitized;
    hide Decimal;
    hide AlgorithmName;
  }

  /** The hash that the next writer reads, and what the writers start from. */
  ghost predicate LatestIs(w: Write, log: seq<Row>, prev: string) {
    if log != [] then prev == log[|log| - 1].hash
    else if w.Record? || w.RootCa? then |prev| == 64 && forall c :: c in prev ==> c == '0'
    else prev == ""
  }

  ghost predicate RecordedAs(env: Env, w: Write, log: seq<Row>, r: Row) {
    && StoredNames(w, r) && StoredDetails(env, w, r)
    && exists prev :: LatestIs(w, log, prev) && StoredChain(env, w, prev, r)
  }

  /** `grown` is the log with the write's row at its place in the query order. */
  ghost predicate Recorded(env: Env, w: Write, log: seq<Row>, grown: seq<Row>) {
    exists p ::
      && 0 <= p <= |log| && |grown| == |log| + 1 && grown[..p] == log[..p] && grown[p + 1..] == log[p..]
      && RecordedAs(env, w, log, grown[p])
      && (forall i :: 0 <= i < p ==> RowBefore(log[i], grown[p]))
      && (forall i :: p <= i < |log| ==> RowBefore(grown[p], log[i]))
  }

  lemma {:induction false} RowRecorded(env: Env, w: Write, log: seq<Row>)
    ensures RecordedAs(env, w, log, RowFor(env, w, PrevFor(w, log)))
  {
    hide RowFor;
    hide StoredNames;
    hide StoredDetails;
    hide StoredChain;
    var prev := PrevFor(w, log);
    RowNames(env, w, prev);
    RowDetails(env, w, prev);
    RowChain(env, w, prev);
    ZerosAre(DIGEST_LENGTH);
    assert LatestIs(w, log, prev);
  }

  lemma {:induction false} AppendRecords(env: Env, w: Write, log: seq<Row>)
    requires Sorted(log) && forall i :: 0 <= i < |log| ==> log[i].id != w.id
    ensures Recorded(env, w, log, Append(env, log, w))
  {
    hide RowFor;
    hide RecordedAs;
    var r := RowFor(env, w, PrevFor(w, log));
    RowForKey(env, w, PrevFor(w, log));
    RowRecorded(env, w, log);
    var p := PlaceIs(log, r);
    var grown := Place(log, r);
    hide Sorted;
    hide Place;
    hide RowBefore;
    assert grown[..p] == log[..p] && grown[p + 1..] == log[p..] && grown[p] == r;
  }

  /** The table as the writers use it, in the order of the queries. */
  class AuditLogs {
    var rows: seq<Row>

    ghost predicate Valid()
      reads this
    {
      Sorted(rows)
    }

    /** `id` is the table's primary key. */
    ghost predicate New(id: nat)
      reads this
    {
      forall i :: 0 <= i < |rows| ==> rows[i].id != id
    }

    constructor ()
      ensures Valid() && rows == []
    {
      rows := [];
    }

    /** The hash of the row that no other row follows in (created_at, id) order. */
    method LatestHash() returns (hash: Option<string>)
      requires Valid()
      ensures hash.None? <==> rows == []
      ensures hash.Some? ==>
                exists i :: 0 <= i < |rows| && rows[i].hash == hash.value &&
                            forall j :: 0 <= j < |rows| && j != i ==> RowBefore(rows[j], rows[i])
    {
      if rows == [] {
        return None;
      }
      hash := Some(rows[|rows| - 1].hash);
    }

    method Insert(row: Row)
      requires Valid() && New(row.id)
      modifies this
      ensures Valid() && rows == Place(old(rows), row)
    {
      PlaceSorted(rows, row);
      hide Sorted;
      hide RowBefore;
      var i := |rows|;
      assert rows[..i] == rows && rows[i..] == [];
      while i > 0 && !RowBefore(rows[i - 1], row)
        invariant 0 <= i <= |rows|
        invariant Place(rows, row) == Place(rows[..i], row) + rows[i..]
      {
        assert rows[..i][..i - 1] == rows[..i - 1];
        assert [rows[i - 1]] + rows[i..] == rows[i - 1..];
        i := i - 1;
      }
      rows := rows[..i] + [row] + rows[i..];
    }

    /** Read the latest hash, hash the entry, insert the row. */
    method Write(env: Env, w: Write)
      requires Valid() && New(w.id)
      modifies this
      ensures Valid() && rows == Append(env, old(rows), w) && Recorded(env, w, old(rows), rows)
    {
      AppendRecords(env, w, rows);
      hide Recorded;
      var latest := LatestHash();
      LatestIsLast(rows, latest);
      var prev := if latest.Some? then latest.value else Fallback(w);
      var draft := Hashed(env, w, prev);
      var hash := ComputeAuditHash(env.sha, Input(env, draft));
      Insert(draft.(id := w.id, createdAt := StoredTime(w.at), hash := hash));
    }
  }

  function RowAt(env: Env, ws: seq<Write>, i: nat): Row
    requires i < |ws|
  {
    RowFor(env, ws[i], PrevFor(ws[i], LogOf(env, ws[..i])))
  }

  lemma {:induction false} PlaceMembers(log: seq<Row>, r: Row, x: Row)
    ensures x in Place(log, r) <==> x == r || x in log
    ensures |Place(log, r)| == |log| + 1
    decreases |log|
  {
    if log != [] && !RowBefore(log[|log| - 1], r) {
      PlaceMembers(log[..|log| - 1], r, x);
      assert log == log[..|log| - 1] + [log[|log| - 1]];
    }
  }

  lemma {:induction false} LogRowHasWrite(env: Env, ws: seq<Write>, x: Row)
    requires x in LogOf(env, ws)
    ensures exists i :: 0 <= i < |ws| && ws[i].id == x.id
    decreases |ws|
  {
    hide Hashed;
    var n := |ws| - 1;
    PlaceMembers(LogOf(env, ws[..n]), RowAt(env, ws, n), x);
    if x == RowAt(env, ws, n) {
      assert ws[n].id == x.id;
    } else {
      LogRowHasWrite(env, ws[..n], x);
      var i :| 0 <= i < n && ws[..n][i].id == x.id;
      assert ws[i].id == x.id;
    }
  }

  /** The log holds the row of every write. */
  lemma {:induction false} LogHasRow(env: Env, ws: seq<Write>, i: nat)
    requires i < |ws|
    ensures RowAt(env, ws, i) in LogOf(env, ws)
    decreases |ws|
  {
    hide RowFor;
    var n := |ws| - 1;
    PlaceMembers(LogOf(env, ws[..n]), RowAt(env, ws, n), RowAt(env, ws, i));
    if i < n {
      LogHasRow(env, ws[..n], i);
      assert ws[..n][..i] == ws[..i];
    }
  }

  /**
   Every write of every run has its row in the log: its own id, the writer's columns, the reason
   cleaned, the hash that was latest at the time and the digest over all of it.
   */
  lemma {:induction false} EveryWriteStored(env: Env, ws: seq<Write>, i: nat) returns (r: Row)
    requires i < |ws|
    ensures r in LogOf(env, ws) && RecordedAs(env, ws[i], LogOf(env, ws[..i]), r)
  {
    hide RecordedAs;
    r := RowAt(env, ws, i);
    LogHasRow(env, ws, i);
    RowRecorded(env, ws[i], LogOf(env, ws[..i]));
  }

  lemma {:induction false} LogSorted(env: Env, ws: seq<Write>)
    requires DistinctIds(ws)
    ensures Sorted(LogOf(env, ws)) && |LogOf(env, ws)| == |ws|
    decreases |ws|
  {
    hide RowFor;
    hide Place;
    hide RowBefore;
    if ws != [] {
      var n := |ws| - 1;
      var before, r := LogOf(env, ws[..n]), RowAt(env, ws, n);
      RowForKey(env, ws[n], PrevFor(ws[n], before));
      LogSorted(env, ws[..n]);
      forall j | 0 <= j < |before| ensures before[j].id != r.id {
        LogRowHasWrite(env, ws[..n], before[j]);
      }
      PlaceSorted(before, r);
      PlaceMembers(before, r, r);
    }
  }

  /** The log holds one row a write, by creation instant and, among equal instants, by id. */
  lemma {:induction false} LogInQueryOrder(env: Env, ws: seq<Write>, i: nat, j: nat)
    requires DistinctIds(ws) && i < j < |ws|
    ensures |LogOf(env, ws)| == |ws|
    ensures var r, s := LogOf(env, ws)[i], LogOf(env, ws)[j];
            r.createdAt < s.createdAt || (r.createdAt == s.createdAt && r.id < s.id)
  {
    hide LogOf;
    LogSorted(env, ws);
    assert RowBefore(LogOf(env, ws)[i], LogOf(env, ws)[j]);
  }

  // ---------------------------------------------------------------- when the log verifies

  /** The digest idealised, and the two renderings taken to be faithful. */
  ghost predicate Ideal(env: Env) {
    && (forall x, y :: env.sha(x) == env.sha(y) ==> x == y)
    && (forall x :: env.sha(x) != GENESIS && env.sha(x) != "")
    && (forall i, j :: env.uuidText(i) == env.uuidText(j) ==> i == j)
    && (forall t, u :: env.rfc3339(t) == env.rfc3339(u) ==> t == u)
  }

  predicate WriteBefore(v: Write, w: Write) {
    Precedes(StoredTime(v.at), v.id, StoredTime(w.at), w.id)
  }

  /** Stored instants, ids breaking ties, ascend in the order of writing. */
  ghost predicate InOrder(ws: seq<Write>) {
    forall i, j :: 0 <= i < j < |ws| ==> WriteBefore(ws[i], ws[j])
  }

  /** The store returns the id and the instant that were hashed. */
  predicate Faithful(w: Write) {
    StoredTime(w.at) == w.at && (w.Provision? ==> w.credentialId == w.id)
  }

  /** A condition on the writes alone: who starts the log, what the store rounds, and in which order. */
  ghost predicate Sound(ws: seq<Write>) {
    && (ws != [] ==> ws[0].Record? || ws[0].RootCa?)
    && (forall i :: 0 <= i < |ws| ==> Faithful(ws[i]))
    && InOrder(ws)
  }

  lemma {:induction false} FaithfulRow(env: Env, w: Write, prev: string)
    requires Faithful(w)
    ensures Input(env, RowFor(env, w, prev)) == Input(env, Hashed(env, w, prev))
  {
  }

  lemma {:induction false} UnfaithfulRow(env: Env, w: Write, prev: string)
    requires Ideal(env) && !Faithful(w)
    ensures RowHash(env, RowFor(env, w, prev)) != RowFor(env, w, prev).hash
  {
    hide Payload;
    var r, d := RowFor(env, w, prev), Hashed(env, w, prev);
    if RowHash(env, r) == r.hash {
      assert Payload(Input(env, r)) == Payload(Input(env, d));
      PayloadInjective(Input(env, r), Input(env, d));
      assert false;
    }
  }

  lemma {:induction false} FaithfulRowOk(env: Env, keys: seq<PublicKey>, w: Write, prev: string)
    requires Faithful(w)
    ensures RowOk(env, keys, prev, RowFor(env, w, prev))
  {
    hide Payload;
    FaithfulRow(env, w, prev);
  }

  lemma {:induction false} RowForKey(env: Env, w: Write, prev: string)
    ensures RowFor(env, w, prev).id == w.id && RowFor(env, w, prev).createdAt == StoredTime(w.at)
    ensures RowFor(env, w, prev).prevHash == prev
    ensures exists x :: RowFor(env, w, prev).hash == env.sha(x)
  {
    assert RowFor(env, w, prev).hash == env.sha(Payload(Input(env, Hashed(env, w, prev))));
  }

  lemma PlaceLast(log: seq<Row>, r: Row)
    requires log == [] || RowBefore(log[|log| - 1], r)
    ensures Place(log, r) == log + [r]
  {
  }

  /** In order, every append goes at the end. */
  lemma {:induction false} InOrderStep(env: Env, ws: seq<Write>)
    requires ws != [] && InOrder(ws)
    ensures LogOf(env, ws) == LogOf(env, ws[..|ws| - 1]) + [RowAt(env, ws, |ws| - 1)]
    decreases |ws|
  {
    hide RowFor;
    hide Place;
    var n := |ws| - 1;
    if n == 0 {
      assert ws[..0] == [];
      PlaceLast([], RowAt(env, ws, 0));
    } else {
      InOrderStep(env, ws[..n]);
      assert ws[..n][..n - 1] == ws[..n - 1];
      RowForKey(env, ws[n - 1], PrevFor(ws[n - 1], LogOf(env, ws[..n - 1])));
      RowForKey(env, ws[n], PrevFor(ws[n], LogOf(env, ws[..n])));
      assert WriteBefore(ws[n - 1], ws[n]);
      PlaceLast(LogOf(env, ws[..n]), RowAt(env, ws, n));
    }
  }

  lemma {:induction false} SoundLogChained(env: Env, keys: seq<PublicKey>, ws: seq<Write>)
    requires Sound(ws)
    ensures Chained(env, keys, GENESIS, LogOf(env, ws))
    ensures |LogOf(env, ws)| == |ws|
    decreases |ws|
  {
    hide RowOk;
    hide RowFor;
    if ws != [] {
      var n := |ws| - 1;
      var before, r := LogOf(env, ws[..n]), RowAt(env, ws, n);
      SoundLogChained(env, keys, ws[..n]);
      InOrderStep(env, ws);
      ChainedSplit(env, keys, GENESIS, before, [r]);
      FaithfulRowOk(env, keys, ws[n], PrevFor(ws[n], before));
      assert LinkOk(env, keys, LastHash(GENESIS, before), [r], 0);
    }
  }

  /** Without digest collisions the hashes along a chain are all different. */
  lemma {:induction false} HashesDiffer(env: Env, keys: seq<PublicKey>, rows: seq<Row>, i: nat, j: nat)
    requires Ideal(env) && Chained(env, keys, GENESIS, rows) && i < j < |rows|
    ensures rows[i].hash != rows[j].hash
    decreases i
  {
    hide Payload;
    assert LinkOk(env, keys, GENESIS, rows, i) && LinkOk(env, keys, GENESIS, rows, j);
    assert LinkOk(env, keys, GENESIS, rows, j - 1);
    if rows[i].hash == rows[j].hash {
      PayloadInjective(Input(env, rows[i]), Input(env, rows[j]));
      if i > 0 {
        HashesDiffer(env, keys, rows, i - 1, j - 1);
      }
    }
  }

  /** A row that names another row's hash stands right behind it in a chain. */
  lemma {:induction false} BehindNamedRow(env: Env, keys: seq<PublicKey>, rows: seq<Row>, r: Row, s: Row)
    requires Ideal(env) && Chained(env, keys, GENESIS, rows) && Sorted(rows)
    requires r in rows && s in rows && s.prevHash == r.hash && exists x :: r.hash == env.sha(x)
    ensures RowBefore(r, s)
  {
    hide RowHash;
    var p :| 0 <= p < |rows| && rows[p] == s;
    var q :| 0 <= q < |rows| && rows[q] == r;
    assert LinkOk(env, keys, GENESIS, rows, p);
    if p > 0 && p - 1 < q {
      HashesDiffer(env, keys, rows, p - 1, q);
    } else if p > 0 && q < p - 1 {
      HashesDiffer(env, keys, rows, q, p - 1);
    }
  }

  lemma {:induction false} NextInOrder(env: Env, keys: seq<PublicKey>, ws: seq<Write>, k: nat)
    requires Ideal(env) && DistinctIds(ws) && 1 <= k < |ws| && InOrder(ws[..k])
    requires Chained(env, keys, GENESIS, LogOf(env, ws))
    ensures WriteBefore(ws[k - 1], ws[k])
  {
    hide RowFor;
    hide LinkOk;
    InOrderStep(env, ws[..k]);
    assert ws[..k][..k - 1] == ws[..k - 1];
    var r, s := RowAt(env, ws, k - 1), RowAt(env, ws, k);
    RowForKey(env, ws[k - 1], PrevFor(ws[k - 1], LogOf(env, ws[..k - 1])));
    RowForKey(env, ws[k], PrevFor(ws[k], LogOf(env, ws[..k])));
    LogSorted(env, ws);
    LogHasRow(env, ws, k - 1);
    LogHasRow(env, ws, k);
    BehindNamedRow(env, keys, LogOf(env, ws), r, s);
  }

  lemma InOrderExtend(ws: seq<Write>, k: nat)
    requires 1 <= k < |ws| && InOrder(ws[..k]) && WriteBefore(ws[k - 1], ws[k])
    ensures InOrder(ws[..k + 1])
  {
    forall i | 0 <= i < k ensures WriteBefore(ws[i], ws[k]) {
      assert i < k - 1 ==> WriteBefore(ws[..k][i], ws[..k][k - 1]);
    }
    forall i, j | 0 <= i < j < k ensures WriteBefore(ws[i], ws[j]) {
      assert WriteBefore(ws[..k][i], ws[..k][j]);
    }
  }

  /** If the final log is a chain, every write came later than the one before it. */
  lemma {:induction false} ChainedInOrder(env: Env, keys: seq<PublicKey>, ws: seq<Write>, k: nat)
    requires Ideal(env) && DistinctIds(ws) && k <= |ws|
    requires Chained(env, keys, GENESIS, LogOf(env, ws))
    ensures InOrder(ws[..k])
    decreases k
  {
    hide LogOf;
    if k > 1 {
      ChainedInOrder(env, keys, ws, k - 1);
      NextInOrder(env, keys, ws, k - 1);
      InOrderExtend(ws, k - 1);
    }
  }

  lemma {:induction false} ChainedFaithful(env: Env, keys: seq<PublicKey>, ws: seq<Write>, i: nat)
    requires Ideal(env) && i < |ws|
    requires Chained(env, keys, GENESIS, LogOf(env, ws))
    ensures Faithful(ws[i])
  {
    hide RowFor;
    LogHasRow(env, ws, i);
    var rows, r := LogOf(env, ws), RowAt(env, ws, i);
    var p :| 0 <= p < |rows| && rows[p] == r;
    assert LinkOk(env, keys, GENESIS, rows, p);
    if !Faithful(ws[i]) {
      UnfaithfulRow(env, ws[i], PrevFor(ws[i], LogOf(env, ws[..i])));
      assert false;
    }
  }

  lemma {:induction false} ChainedStart(env: Env, keys: seq<PublicKey>, ws: seq<Write>)
    requires Ideal(env) && ws != []
    requires Chained(env, keys, GENESIS, LogOf(env, ws))
    ensures ws[0].Record? || ws[0].RootCa?
  {
    hide RowFor;
    LogHasRow(env, ws, 0);
    var rows, r := LogOf(env, ws), RowAt(env, ws, 0);
    RowForKey(env, ws[0], Fallback(ws[0]));
    var p :| 0 <= p < |rows| && rows[p] == r;
    assert LinkOk(env, keys, GENESIS, rows, p);
    if p > 0 {
      assert LinkOk(env, keys, GENESIS, rows, p - 1);
      assert rows[p - 1].hash == env.sha(Payload(Input(env, rows[p - 1])));
    }
  }

  /**
   A serialised run leaves a log that verifies exactly when its writes are sound: a
   zero-fallback writer starts it, no hashed instant is finer than a microsecond, no
   writer stores another id than it hashed, and (stored instant, id) ascends.
   */
  lemma {:induction false} RunVerifiesIff(env: Env, keys: seq<PublicKey>, ws: seq<Write>)
    requires Ideal(env) && DistinctIds(ws)
    ensures Chained(env, keys, GENESIS, LogOf(env, ws)) <==> Sound(ws)
  {
    hide LinkOk;
    if Sound(ws) {
      SoundLogChained(env, keys, ws);
    } else if Chained(env, keys, GENESIS, LogOf(env, ws)) {
      ChainedInOrder(env, keys, ws, |ws|);
      assert ws[..|ws|] == ws;
      forall i | 0 <= i < |ws| ensures Faithful(ws[i]) {
        ChainedFaithful(env, keys, ws, i);
      }
      if ws != [] {
        ChainedStart(env, keys, ws);
      }
      assert false;
    }
  }

  /**
   Starting with the service's own startup record and with a clock that advances by whole
   microseconds, any mix of `record`, import, ceremony and root-CA appends gives a log
   that full verification passes, counting every row.
   */
  lemma {:induction false} SerialisedRunReport(env: Env, keys: seq<PublicKey>, ws: seq<Write>, r: Report)
    requires ws != [] && ws[0].Record?
    requires forall i :: 0 <= i < |ws| ==> !ws[i].Provision? && ws[i].at % 1000 == 0
    requires forall i, j :: 0 <= i < j < |ws| ==> ws[i].at < ws[j].at
    requires ReportFor(env, keys, GENESIS, LogOf(env, ws), r)
    ensures r == Report(true, |ws|, |ws|, [])
  {
    hide LinkOk;
    SoundLogChained(env, keys, ws);
    ReportMeaning(env, keys, GENESIS, LogOf(env, ws), r, r);
  }
}
