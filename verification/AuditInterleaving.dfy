/**
 Concurrent ceremony and root-CA writers (`register_ceremony_handler`,
 `init_root_ca::execute`), cut into the steps between which other transactions run.
 Reads see committed rows only; advisory locks are held to the end of a transaction.
 */
module AuditInterleaving {
  import opened Wrappers
  import opened AuditChain
  import opened AuditRuns
  import opened Timestamps

  datatype Job =
    | CeremonyJob(operation: string, requested: Option<string>, ceremonyId: string, manifest: string)
    | RootCaJob(tag: string, keyAlgorithm: string, ceremonyId: string, rootCaId: string, manifest: string)

  datatype Phase =
    | Begun            // transaction open
    | Tagged           // root CA: holds the lock of its tag
    | Checked          // root CA: saw no row with its tag
    | Staged           // root CA: its root_cas row is written, not committed
    | Locked           // holds the chain lock
    | HasPrev(prev: string)
    | Inserted(row: Row)

  datatype Tx = Tx(job: Job, phase: Phase)

  datatype State = State(
    log: seq<Row>,               // committed audit rows in query order
    cas: map<string, string>,    // committed root_cas: tag to id
    txs: map<nat, Tx>,           // open transactions
    chainLock: Option<nat>,
    tagLocks: map<int, nat>,     // advisory locks on hashed tags and their holders
    clock: nat)                  // the latest instant stored or about to be

  datatype Step =
    | Begin(t: nat, job: Job)
    | TakeTag(t: nat)
    | CheckTag(t: nat)
    | StageCa(t: nat)
    | LockChain(t: nat)
    | ReadLatest(t: nat)
    | Insert(t: nat, id: nat, now: nat)
    | Commit(t: nat)
    | Abort(t: nat)

  /** `env` renders and digests, `tagKey` is `hashtext`, which may map two tags to one lock. */
  datatype World = World(env: Env, tagKey: string -> int)

  function LockKey(w: World, job: Job): int
    requires job.RootCaJob?
  {
    w.tagKey(job.tag)
  }

  function WriteOf(job: Job, id: nat, at: nat): Write {
    match job
    case CeremonyJob(operation, requested, ceremonyId, manifest) =>
      Ceremony(id, at, operation, requested, ceremonyId, manifest)
    case RootCaJob(_, keyAlgorithm, ceremonyId, rootCaId, manifest) =>
      RootCa(id, at, keyAlgorithm, ceremonyId, rootCaId, manifest)
  }

  /** Ending a transaction releases every lock it holds. */
  function Ended(s: State, t: nat): State {
    s.(txs := s.txs - {t},
       chainLock := if s.chainLock == Some(t) then None else s.chainLock,
       tagLocks := map k | k in s.tagLocks && s.tagLocks[k] != t :: s.tagLocks[k])
  }

  predicate In(s: State, t: nat, phase: Phase) {
    t in s.txs && s.txs[t].phase == phase
  }

  predicate Enabled(w: World, s: State, step: Step) {
    match step
    case Begin(t, job) => t !in s.txs
    case TakeTag(t) => In(s, t, Begun) && s.txs[t].job.RootCaJob? && LockKey(w, s.txs[t].job) !in s.tagLocks
    case CheckTag(t) => In(s, t, Tagged) && s.txs[t].job.RootCaJob?
    case StageCa(t) => In(s, t, Checked) && s.txs[t].job.RootCaJob?
    case LockChain(t) =>
      && s.chainLock.None? && t in s.txs
      && s.txs[t].phase == if s.txs[t].job.CeremonyJob? then Begun else Staged
    case ReadLatest(t) => In(s, t, Locked)
    case Insert(t, id, now) =>
      && t in s.txs && s.txs[t].phase.HasPrev? && s.clock < StoredTime(now)
      && forall i :: 0 <= i < |s.log| ==> s.log[i].id != id
    case Commit(t) => t in s.txs && s.txs[t].phase.Inserted?
    case Abort(t) => t in s.txs
  }

  function Moved(s: State, t: nat, phase: Phase): State
    requires t in s.txs
  {
    s.(txs := s.txs[t := s.txs[t].(phase := phase)])
  }

  function Apply(w: World, s: State, step: Step): State
    requires Enabled(w, s, step)
  {
    match step
    case Begin(t, job) => s.(txs := s.txs[t := Tx(job, Begun)])
    case TakeTag(t) => Moved(s, t, Tagged).(tagLocks := s.tagLocks[LockKey(w, s.txs[t].job) := t])
    case CheckTag(t) => if s.txs[t].job.tag in s.cas then Ended(s, t) else Moved(s, t, Checked)
    case StageCa(t) => if s.txs[t].job.tag in s.cas then Ended(s, t) else Moved(s, t, Staged)
    case LockChain(t) => Moved(s, t, Locked).(chainLock := Some(t))
    case ReadLatest(t) =>
      var prev := if s.log == [] then Fallback(WriteOf(s.txs[t].job, 0, 0)) else s.log[|s.log| - 1].hash;
      Moved(s, t, HasPrev(prev))
    case Insert(t, id, now) =>
      var row := RowFor(w.env, WriteOf(s.txs[t].job, id, now), s.txs[t].phase.prev);
      Moved(s, t, Inserted(row)).(clock := StoredTime(now))
    case Commit(t) =>
      var job := s.txs[t].job;
      Ended(s, t).(log := Place(s.log, s.txs[t].phase.row),
                   cas := if job.RootCaJob? then s.cas[job.tag := job.rootCaId] else s.cas)
    case Abort(t) => Ended(s, t)
  }

  // ---------------------------------------------------------------- the invariant

  predicate PastTag(tx: Tx) {
    tx.job.RootCaJob? && !tx.phase.Begun?
  }

  predicate Holding(phase: Phase) {
    phase.Locked? || phase.HasPrev? || phase.Inserted?
  }

  /** What the steps keep of one open transaction. */
  ghost predicate TxOk(w: World, s: State, t: nat)
    requires t in s.txs
  {
    var tx := s.txs[t];
    && (Holding(tx.phase) ==> s.chainLock == Some(t))
    && (PastTag(tx) ==> LockKey(w, tx.job) in s.tagLocks && s.tagLocks[LockKey(w, tx.job)] == t)
    && (tx.job.CeremonyJob? ==> tx.phase.Begun? || Holding(tx.phase))
    && (PastTag(tx) && !tx.phase.Tagged? ==> tx.job.tag !in s.cas)
    && (tx.phase.HasPrev? ==> tx.phase.prev == LastHash(GENESIS, s.log))
    && (tx.phase.Inserted? ==> Pending(w, s, tx))
  }

  /** An inserted row continues the committed log and is later than all of it. */
  ghost predicate PendingAs(w: World, s: State, tx: Tx, id: nat, now: nat)
    requires tx.phase.Inserted?
  {
    && tx.phase.row == RowFor(w.env, WriteOf(tx.job, id, now), LastHash(GENESIS, s.log))
    && StoredTime(now) <= s.clock && forall i :: 0 <= i < |s.log| ==> s.log[i].createdAt < StoredTime(now)
  }

  ghost predicate Pending(w: World, s: State, tx: Tx)
    requires tx.phase.Inserted?
  {
    exists id: nat, now: nat :: PendingAs(w, s, tx, id, now)
  }

  /** Every row names the hash of the row before it: one line, no fork and no gap. */
  ghost predicate Linked(log: seq<Row>) {
    forall i :: 0 <= i < |log| ==> log[i].prevHash == PrevHash(GENESIS, log, i)
  }

  ghost predicate LogOk(log: seq<Row>, clock: nat) {
    && log != [] && Linked(log)
    && forall i :: 0 <= i < |log| ==> log[i].createdAt <= clock
  }

  /** A lock's holder is an open transaction that got that far. */
  ghost predicate LocksOk(s: State) {
    && (s.chainLock.Some? ==> s.chainLock.value in s.txs && Holding(s.txs[s.chainLock.value].phase))
    && (forall k :: k in s.tagLocks ==> s.tagLocks[k] in s.txs && PastTag(s.txs[s.tagLocks[k]]))
  }

  ghost predicate Inv(w: World, s: State) {
    && LogOk(s.log, s.clock)
    && LocksOk(s)
    && (forall t :: t in s.txs ==> TxOk(w, s, t))
  }

  /** A transaction that a step does not touch stays as it was, its locks included. */
  lemma TxFrame(w: World, s: State, e: State, t: nat)
    requires t in s.txs && t in e.txs && s.txs[t] == e.txs[t] && TxOk(w, s, t)
    requires e.log == s.log && e.cas == s.cas && s.clock <= e.clock
    requires s.chainLock == Some(t) ==> e.chainLock == Some(t)
    requires forall k :: k in s.tagLocks && s.tagLocks[k] == t ==> k in e.tagLocks && e.tagLocks[k] == t
    ensures TxOk(w, e, t)
  {
    hide RowFor;
    var tx := e.txs[t];
    if PastTag(tx) {
      assert s.tagLocks[LockKey(w, tx.job)] == t;
    }
    if tx.phase.Inserted? {
      var id: nat, now: nat :| PendingAs(w, s, tx, id, now);
      assert PendingAs(w, e, tx, id, now);
    }
  }

  lemma EndedKeepsInv(w: World, s: State, t: nat)
    requires Inv(w, s) && t in s.txs
    ensures Inv(w, Ended(s, t))
  {
    hide LogOk;
    hide TxOk;
    var e := Ended(s, t);
    forall u | u in e.txs ensures TxOk(w, e, u) {
      TxFrame(w, s, e, u);
    }
  }

  /** A step that only moves transaction `t` to a new phase and perhaps takes a free lock for it. */
  lemma MovedKeepsInv(w: World, s: State, e: State, t: nat)
    requires Inv(w, s)
    requires t in e.txs && e.txs.Keys == s.txs.Keys + {t} && forall u :: u in s.txs && u != t ==> e.txs[u] == s.txs[u]
    requires e.log == s.log && e.cas == s.cas && s.clock <= e.clock
    requires forall u :: u != t && s.chainLock == Some(u) ==> e.chainLock == Some(u)
    requires forall k :: k in s.tagLocks ==> k in e.tagLocks && e.tagLocks[k] == s.tagLocks[k]
    requires LocksOk(e) && TxOk(w, e, t)
    ensures Inv(w, e)
  {
    hide TxOk;
    forall u | u in e.txs && u != t ensures TxOk(w, e, u) {
      TxFrame(w, s, e, u);
    }
  }

  /** Steps before the chain lock is taken. */
  lemma EarlyStepKeepsInv(w: World, s: State, step: Step)
    requires Inv(w, s) && Enabled(w, s, step)
    requires step.Begin? || step.TakeTag? || step.CheckTag? || step.StageCa? || step.Abort?
    ensures Inv(w, Apply(w, s, step))
    ensures Apply(w, s, step).log == s.log && Apply(w, s, step).cas == s.cas
  {
    hide LogOk;
    hide Pending;
    var e := Apply(w, s, step);
    if step.t in e.txs {
      assert step.t in s.txs ==> TxOk(w, s, step.t);
      MovedKeepsInv(w, s, e, step.t);
    } else {
      EndedKeepsInv(w, s, step.t);
    }
  }

  /** Steps of the transaction that holds the chain lock, up to its insert. */
  lemma LockedStepKeepsInv(w: World, s: State, step: Step)
    requires Inv(w, s) && Enabled(w, s, step)
    requires step.LockChain? || step.ReadLatest? || step.Insert?
    ensures Inv(w, Apply(w, s, step))
    ensures Apply(w, s, step).log == s.log && Apply(w, s, step).cas == s.cas
  {
    hide RowFor;
    hide Linked;
    hide StoredTime;
    hide Place;
    var e := Apply(w, s, step);
    assert TxOk(w, s, step.t);
    if step.Insert? {
      assert PendingAs(w, e, e.txs[step.t], step.id, step.now);
    }
    MovedKeepsInv(w, s, e, step.t);
  }

  predicate AuditsCa(r: Row, rootCaId: string) {
    r.action == "ca_init" && r.targetId == Some(rootCaId)
  }

  /** The audit row that a transaction of this kind leaves. */
  ghost predicate RowOfJob(w: World, job: Job, r: Row) {
    match job
    case CeremonyJob(operation, requested, ceremonyId, manifest) =>
      StoredAs(w, Ceremony(r.id, r.createdAt, operation, requested, ceremonyId, manifest), r)
    case RootCaJob(_, keyAlgorithm, ceremonyId, rootCaId, manifest) =>
      StoredAs(w, RootCa(r.id, r.createdAt, keyAlgorithm, ceremonyId, rootCaId, manifest), r)
  }

  /** The columns of that write; the chain columns are left to `Linked` and `SelfOk`. */
  ghost predicate StoredAs(w: World, write: Write, r: Row) {
    StoredNames(write, r) && StoredDetails(w.env, write, r)
  }

  lemma PendingRow(w: World, job: Job, id: nat, now: nat, prev: string)
    ensures RowOfJob(w, job, RowFor(w.env, WriteOf(job, id, now), prev))
    ensures RowFor(w.env, WriteOf(job, id, now), prev).prevHash == prev
  {
    RowNames(w.env, WriteOf(job, id, now), prev);
    RowDetails(w.env, WriteOf(job, id, now), prev);
    RowForKey(w.env, WriteOf(job, id, now), prev);
    hide RowFor;
  }

  lemma CaRow(w: World, job: Job, r: Row)
    requires job.RootCaJob? && RowOfJob(w, job, r)
    ensures AuditsCa(r, job.rootCaId)
  {
  }

  lemma LogExtends(log: seq<Row>, row: Row, clock: nat)
    requires LogOk(log, clock) && row.prevHash == LastHash(GENESIS, log) && row.createdAt <= clock
    ensures LogOk(log + [row], clock)
  {
    hide GENESIS;
    assert forall i :: 0 <= i <= |log| ==> PrevHash(GENESIS, log + [row], i) == PrevHash(GENESIS, log, i);
  }

  /** Committing puts the pending row at the end of the log, where it continues the chain. */
  lemma CommitAppends(w: World, s: State, t: nat)
    requires Inv(w, s) && t in s.txs && s.txs[t].phase.Inserted?
    ensures Place(s.log, s.txs[t].phase.row) == s.log + [s.txs[t].phase.row]
    ensures LogOk(s.log + [s.txs[t].phase.row], s.clock)
    ensures RowOfJob(w, s.txs[t].job, s.txs[t].phase.row)
    ensures s.txs[t].phase.row.prevHash == LastHash(GENESIS, s.log)
  {
    hide RowFor;
    hide RowOfJob;
    hide Place;
    hide StoredTime;
    var tx, row := s.txs[t], s.txs[t].phase.row;
    assert TxOk(w, s, t);
    var id: nat, now: nat :| PendingAs(w, s, tx, id, now);
    PendingRow(w, tx.job, id, now, LastHash(GENESIS, s.log));
    RowForKey(w.env, WriteOf(tx.job, id, now), LastHash(GENESIS, s.log));
    assert row.createdAt == StoredTime(now);
    LogExtends(s.log, row, s.clock);
    PlaceLast(s.log, row);
  }

  /** A commit of `t` finds every other transaction before the chain lock and with another tag. */
  lemma CommitFrame(w: World, s: State, t: nat, u: nat)
    requires t in s.txs && u in s.txs && u != t && s.txs[t].phase.Inserted? && TxOk(w, s, t) && TxOk(w, s, u)
    ensures TxOk(w, Apply(w, s, Commit(t)), u)
  {
    hide Place;
    hide Pending;
    hide LastHash;
    var tx := s.txs[u];
    assert !Holding(tx.phase);
    if PastTag(tx) && s.txs[t].job.RootCaJob? {
      assert LockKey(w, tx.job) != LockKey(w, s.txs[t].job);
    }
  }

  lemma EndedLocks(s: State, t: nat)
    requires LocksOk(s)
    ensures LocksOk(Ended(s, t))
  {
  }

  lemma CommitKeepsInv(w: World, s: State, t: nat)
    requires Inv(w, s) && Enabled(w, s, Commit(t))
    ensures Inv(w, Apply(w, s, Commit(t)))
    ensures Apply(w, s, Commit(t)).log == s.log + [s.txs[t].phase.row]
    ensures var e := Apply(w, s, Commit(t)); forall tag :: tag in s.cas ==> tag in e.cas && e.cas[tag] == s.cas[tag]
  {
    hide LogOk;
    hide RowOfJob;
    hide TxOk;
    hide Place;
    CommitAppends(w, s, t);
    EndedLocks(s, t);
    TagNew(w, s, t);
    hide LocksOk;
    var e := Apply(w, s, Commit(t));
    forall u | u in e.txs ensures TxOk(w, e, u) {
      CommitFrame(w, s, t, u);
    }
  }

  /** Nobody has committed the tag of a transaction that has checked it. */
  lemma TagNew(w: World, s: State, t: nat)
    requires t in s.txs && TxOk(w, s, t) && s.txs[t].phase.Inserted?
    ensures s.txs[t].job.RootCaJob? ==> s.txs[t].job.tag !in s.cas
  {
  }

  // ---------------------------------------------------------------- every interleaving

  /** Committed root CAs have their audit row, and both are only ever added to. */
  ghost predicate Audited(s: State) {
    forall tag :: tag in s.cas ==> exists i :: 0 <= i < |s.log| && AuditsCa(s.log[i], s.cas[tag])
  }

  ghost predicate Grows(s: State, e: State) {
    && s.log <= e.log
    && forall tag :: tag in s.cas ==> tag in e.cas && e.cas[tag] == s.cas[tag]
  }

  lemma StepKeepsInv(w: World, s: State, step: Step)
    requires Inv(w, s) && Enabled(w, s, step)
    ensures Inv(w, Apply(w, s, step)) && Grows(s, Apply(w, s, step))
    ensures Audited(s) ==> Audited(Apply(w, s, step))
  {
    hide Inv;
    match step
    case Commit(t) =>
      CommitKeepsInv(w, s, t);
      CommitAppends(w, s, t);
      hide RowOfJob;
      hide LogOk;
      hide Place;
      var e := Apply(w, s, step);
      if Audited(s) {
        forall tag | tag in e.cas ensures exists i :: 0 <= i < |e.log| && AuditsCa(e.log[i], e.cas[tag]) {
          if s.txs[t].job.RootCaJob? && tag == s.txs[t].job.tag {
            CaRow(w, s.txs[t].job, s.txs[t].phase.row);
            assert AuditsCa(e.log[|s.log|], e.cas[tag]);
          } else {
            var i :| 0 <= i < |s.log| && AuditsCa(s.log[i], s.cas[tag]);
            assert AuditsCa(e.log[i], e.cas[tag]);
          }
        }
      }
    case LockChain(t) => LockedStepKeepsInv(w, s, step);
    case ReadLatest(t) => LockedStepKeepsInv(w, s, step);
    case Insert(t, id, now) => LockedStepKeepsInv(w, s, step);
    case _ => EarlyStepKeepsInv(w, s, step);
  }

  /** `e` is reached from `s` by taking `steps` in turn, each when it is enabled. */
  ghost predicate Reaches(w: World, s: State, steps: seq<Step>, e: State)
    decreases |steps|
  {
    if steps == [] then s == e
    else Enabled(w, s, steps[0]) && Reaches(w, Apply(w, s, steps[0]), steps[1..], e)
  }

  lemma {:induction false} RunKeepsInv(w: World, s: State, steps: seq<Step>, e: State)
    requires Inv(w, s) && Reaches(w, s, steps, e)
    ensures Inv(w, e) && Grows(s, e)
    ensures Audited(s) ==> Audited(e)
    decreases |steps|
  {
    hide Inv;
    hide Apply;
    hide Audited;
    if steps != [] {
      StepKeepsInv(w, s, steps[0]);
      RunKeepsInv(w, Apply(w, s, steps[0]), steps[1..], e);
    }
  }

  /** No transaction open, an unforked nonempty log, a clock not behind any row. */
  ghost predicate Idle(w: World, s: State) {
    LogOk(s.log, s.clock) && s.txs == map[] && s.chainLock.None? && s.tagLocks == map[]
  }

  /**
   Every interleaving of any number of ceremony and root-CA transactions, aborts included,
   leaves one unforked line of rows that extends the one it started from, for clocks of any
   precision; no root CA is replaced, and each committed one has its audit row.
   */
  lemma EveryInterleavingLinks(w: World, s: State, steps: seq<Step>, e: State)
    requires Idle(w, s) && Reaches(w, s, steps, e)
    ensures Linked(e.log) && Grows(s, e)
    ensures Audited(s) ==> Audited(e)
  {
    hide Reaches;
    RunKeepsInv(w, s, steps, e);
  }

  /**
   In every reachable state a commit appends the one row of its job and closes the transaction;
   a root CA also enters the table, under a tag that was free.
   */
  lemma CommitStores(w: World, s: State, steps: seq<Step>, e: State, t: nat)
    requires Idle(w, s) && Reaches(w, s, steps, e) && Enabled(w, e, Commit(t))
    ensures var f, job := Apply(w, e, Commit(t)), e.txs[t].job;
            && e.log != [] && |f.log| == |e.log| + 1 && f.log[..|e.log|] == e.log && RowOfJob(w, job, f.log[|e.log|])
            && f.log[|e.log|].prevHash == e.log[|e.log| - 1].hash
            && (job.CeremonyJob? ==> f.cas == e.cas)
            && (job.RootCaJob? ==> job.tag !in e.cas && f.cas == e.cas[job.tag := job.rootCaId])
            && f.txs == e.txs - {t} && Some(t) != f.chainLock && t !in f.tagLocks.Values
  {
    RunKeepsInv(w, s, steps, e);
    hide Reaches;
    hide RowOfJob;
    hide Place;
    CommitAppends(w, e, t);
    assert TxOk(w, e, t);
  }

  // ---------------------------------------------------------------- re-verification

  /** The row carries the hash of what is stored in it, and an acceptable signature. */
  predicate SelfOk(w: World, keys: seq<PublicKey>, r: Row) {
    RowHash(w.env, r) == r.hash && SignatureOk(keys, r)
  }

  lemma ChainedIs(w: World, keys: seq<PublicKey>, log: seq<Row>)
    ensures Chained(w.env, keys, GENESIS, log) <==>
            Linked(log) && forall i :: 0 <= i < |log| ==> SelfOk(w, keys, log[i])
  {
    hide RowHash;
    hide SignatureOk;
    forall i | 0 <= i < |log|
      ensures LinkOk(w.env, keys, GENESIS, log, i) <==>
              log[i].prevHash == PrevHash(GENESIS, log, i) && SelfOk(w, keys, log[i])
    {
    }
    hide LinkOk;
    hide SelfOk;
    hide PrevHash;
  }

  /** Committed rows and those about to be committed re-verify. */
  ghost predicate Sealed(w: World, keys: seq<PublicKey>, s: State) {
    && (forall i :: 0 <= i < |s.log| ==> SelfOk(w, keys, s.log[i]))
    && (forall t :: t in s.txs && s.txs[t].phase.Inserted? ==> SelfOk(w, keys, s.txs[t].phase.row))
  }

  predicate WholeMicros(step: Step) {
    step.Insert? ==> step.now % 1000 == 0
  }

  lemma InsertedSelfOk(w: World, keys: seq<PublicKey>, job: Job, id: nat, now: nat, prev: string)
    requires now % 1000 == 0
    ensures SelfOk(w, keys, RowFor(w.env, WriteOf(job, id, now), prev))
  {
    FaithfulRowOk(w.env, keys, WriteOf(job, id, now), prev);
    hide RowHash;
    hide RowFor;
    hide SignatureOk;
  }

  lemma StepKeepsSealed(w: World, keys: seq<PublicKey>, s: State, step: Step)
    requires Inv(w, s) && Enabled(w, s, step) && Sealed(w, keys, s) && WholeMicros(step)
    ensures Sealed(w, keys, Apply(w, s, step))
  {
    hide SelfOk;
    hide RowFor;
    hide Place;
    hide Inv;
    hide StoredTime;
    match step
    case Commit(t) => CommitAppends(w, s, t);
    case Insert(t, id, now) => InsertedSelfOk(w, keys, s.txs[t].job, id, now, s.txs[t].phase.prev);
    case _ =>
  }

  lemma {:induction false} RunKeepsSealed(w: World, keys: seq<PublicKey>, s: State, steps: seq<Step>, e: State)
    requires Inv(w, s) && Reaches(w, s, steps, e) && Sealed(w, keys, s)
    requires forall i :: 0 <= i < |steps| ==> WholeMicros(steps[i])
    ensures Sealed(w, keys, e)
    decreases |steps|
  {
    hide Inv;
    hide Apply;
    hide Sealed;
    if steps != [] {
      StepKeepsInv(w, s, steps[0]);
      StepKeepsSealed(w, keys, s, steps[0]);
      RunKeepsSealed(w, keys, Apply(w, s, steps[0]), steps[1..], e);
    }
  }

  /** With instants of whole microseconds the extended log verifies, as the one it started from did. */
  lemma EveryInterleavingChains(w: World, keys: seq<PublicKey>, s: State, steps: seq<Step>, e: State)
    requires Idle(w, s) && Chained(w.env, keys, GENESIS, s.log) && Reaches(w, s, steps, e)
    requires forall i :: 0 <= i < |steps| ==> WholeMicros(steps[i])
    ensures Chained(w.env, keys, GENESIS, e.log) && Grows(s, e)
    ensures Audited(s) ==> Audited(e)
  {
    hide Chained;
    hide SelfOk;
    hide Reaches;
    ChainedIs(w, keys, s.log);
    ChainedIs(w, keys, e.log);
    EveryInterleavingLinks(w, s, steps, e);
    RunKeepsSealed(w, keys, s, steps, e);
  }

  /** The tag lock makes the insert's conflict clause unreachable: nobody commits the tag in between. */
  lemma InsertNeverConflicts(w: World, s: State, steps: seq<Step>, e: State, t: nat)
    requires Idle(w, s) && Reaches(w, s, steps, e) && Enabled(w, e, StageCa(t))
    ensures Apply(w, e, StageCa(t)) == Moved(e, t, Staged)
  {
    hide Reaches;
    RunKeepsInv(w, s, steps, e);
    assert TxOk(w, e, t);
  }

  /** The step by which transaction `t` goes on, given what it can still need. */
  function NextStep(s: State, t: nat, id: nat): Step
    requires t in s.txs
  {
    match s.txs[t].phase
    case Begun => if s.txs[t].job.CeremonyJob? then LockChain(t) else TakeTag(t)
    case Tagged => CheckTag(t)
    case Checked => StageCa(t)
    case Staged => LockChain(t)
    case Locked => ReadLatest(t)
    case HasPrev(_) => Insert(t, id, s.clock + 1000)
    case Inserted(_) => Commit(t)
  }

  lemma {:induction false} ReachesOn(w: World, s: State, steps: seq<Step>, m: State, step: Step)
    requires Reaches(w, s, steps, m) && Enabled(w, m, step)
    ensures Reaches(w, s, steps + [step], Apply(w, m, step))
    decreases |steps|
  {
    hide Enabled;
    hide Apply;
    if steps == [] {
      assert Reaches(w, Apply(w, m, step), [], Apply(w, m, step));
    } else {
      ReachesOn(w, Apply(w, s, steps[0]), steps[1..], m, step);
      assert (steps + [step])[1..] == steps[1..] + [step];
    }
  }

  /** From the chain lock to the commit, with nobody else at work. */
  lemma SoloTail(w: World, s: State, steps: seq<Step>, m: State, t: nat, id: nat, now: nat)
      returns (all: seq<Step>, e: State)
    requires Reaches(w, s, steps, m) && m.txs.Keys == {t} && Enabled(w, m, LockChain(t))
    requires m.clock < StoredTime(now) && forall i :: 0 <= i < |m.log| ==> m.log[i].id != id
    ensures Reaches(w, s, all, e) && e.txs == map[] && |e.log| == |m.log| + 1
    ensures e.cas == if m.txs[t].job.RootCaJob? then m.cas[m.txs[t].job.tag := m.txs[t].job.rootCaId] else m.cas
  {
    hide Reaches;
    hide RowFor;
    hide Place;
    hide StoredTime;
    var a := Apply(w, m, LockChain(t));
    ReachesOn(w, s, steps, m, LockChain(t));
    var b := Apply(w, a, ReadLatest(t));
    ReachesOn(w, s, steps + [LockChain(t)], a, ReadLatest(t));
    var c := Apply(w, b, Insert(t, id, now));
    all := steps + [LockChain(t)] + [ReadLatest(t)];
    ReachesOn(w, s, all, b, Insert(t, id, now));
    e := Apply(w, c, Commit(t));
    all := all + [Insert(t, id, now)];
    ReachesOn(w, s, all, c, Commit(t));
    PlaceMembers(c.log, c.txs[t].phase.row, c.txs[t].phase.row);
    all := all + [Commit(t)];
  }

  /**
   Alone, a transaction runs to its commit: one more audit row, and a root CA under its tag.
   A root CA whose tag is taken ends without a trace.
   */
  lemma SoloRun(w: World, s: State, t: nat, job: Job, id: nat, now: nat) returns (steps: seq<Step>, e: State)
    requires Idle(w, s) && s.clock < StoredTime(now) && forall i :: 0 <= i < |s.log| ==> s.log[i].id != id
    ensures Reaches(w, s, steps, e) && e.txs == map[]
    ensures job.CeremonyJob? ==> |e.log| == |s.log| + 1 && e.cas == s.cas
    ensures job.RootCaJob? && job.tag !in s.cas ==> |e.log| == |s.log| + 1 && e.cas == s.cas[job.tag := job.rootCaId]
    ensures job.RootCaJob? && job.tag in s.cas ==> e == s
  {
    hide LogOk;
    hide StoredTime;
    steps := [];
    assert Reaches(w, s, [], s);
    hide Reaches;
    ReachesOn(w, s, [], s, Begin(t, job));
    steps, e := [] + [Begin(t, job)], Apply(w, s, Begin(t, job));
    if job.RootCaJob? {
      ReachesOn(w, s, steps, e, TakeTag(t));
      steps, e := steps + [TakeTag(t)], Apply(w, e, TakeTag(t));
      ReachesOn(w, s, steps, e, CheckTag(t));
      steps, e := steps + [CheckTag(t)], Apply(w, e, CheckTag(t));
      if job.tag in s.cas {
        return;
      }
      ReachesOn(w, s, steps, e, StageCa(t));
      steps, e := steps + [StageCa(t)], Apply(w, e, StageCa(t));
    }
    steps, e := SoloTail(w, s, steps, e, t, id, now);
  }

  /** No deadlock: while a transaction is open, some open transaction can go on without aborting. */
  lemma SomeoneCanGoOn(w: World, s: State, t: nat, id: nat) returns (u: nat)
    requires Inv(w, s) && t in s.txs
    requires forall i :: 0 <= i < |s.log| ==> s.log[i].id != id
    ensures u in s.txs && Enabled(w, s, NextStep(s, u, id))
  {
    hide LogOk;
    hide Pending;
    hide LastHash;
    assert TxOk(w, s, t);
    if s.chainLock.Some? {
      u := s.chainLock.value;
      assert TxOk(w, s, u);
    } else if Enabled(w, s, NextStep(s, t, id)) {
      u := t;
    } else {
      u := s.tagLocks[LockKey(w, s.txs[t].job)];
      assert TxOk(w, s, u);
    }
  }
}
