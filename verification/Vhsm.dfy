/**
 The vHSM's seal state and its request handlers. A handler that gives up the state lock and
 takes it again is two steps, with a job in between; any other requests and timeout checks
 may run there. Times are seconds.
 */
module Vhsm {
  import opened Wrappers
  import opened Bytes
  import opened VhsmCrypto
  import opened Text

  const UNSEAL_TIMEOUT: nat := 15 * 60

  datatype Hsm = Hsm(
    initialized: bool, version: nat, masterKey: Option<bytes>, unsealStartedAt: Option<nat>, caKeys: map<string, bytes>)

  const SEALED: Hsm := Hsm(false, 0, None, None, map[])

  /** What a handler holds while it does not hold the lock. */
  datatype Job =
    | Ceremony(key: Key)
    | RootCa(first: bytes, second: bytes)
    | LoadCa(tag: string, plain: bytes)

  datatype Sys = Sys(hsm: Hsm, jobs: map<nat, Job>)

  const START: Sys := Sys(SEALED, map[])

  /** One stay under the lock. Random keys and nonces, and the outcome of certificate building, come with it. */
  datatype Action =
    | StartCeremony(id: nat, generated: Option<Key>)
    | FinishCeremony(id: nat)
    | InitMasterKey(threshold: nat, shares: seq<Share>)
    | StartRootCa(id: nat, algorithm: string, material: Option<(bytes, bytes)>)
    | FinishRootCa(id: nat, nonce1: Nonce, nonce2: Nonce)
    | StartLoadCa(id: nat, tag: string, blob: bytes)
    | FinishLoadCa(id: nat)
    | GenerateKek(algorithm: string, kek: Key, nonce: Nonce)
    | GenerateDataKey(wrappedKek: bytes, kekVersion: Option<nat>, algorithm: string, dek: Key, nonce: Nonce)
    | Encrypt(keyId: string, keyVersion: Option<nat>, plain: bytes, nonce: Nonce)
    | Decrypt(keyId: string, keyVersion: Option<nat>, ciphertext: bytes)
    | StartTimer(now: nat)
    | Tick(now: nat)

  datatype Response =
    | Error(code: nat)
    | Working
    | Panic
    | CeremonyGenerated
    | MasterKeyInitialized
    | RootCaKeyGenerated(encryptedKey: bytes, version: nat)
    | KekGenerated(wrappedKek: bytes, rootVersion: nat)
    | DataKeyGenerated(plainDek: bytes, wrappedDek: bytes, rootVersion: nat)
    | Encrypted(ciphertext: bytes, version: nat)
    | Decrypted(plaintext: bytes, version: nat)

  // ---------------------------------------------------------------- transitions

  /** What both ways to unseal do. */
  function Installed(h: Hsm, key: bytes): Hsm {
    h.(masterKey := Some(key), initialized := true, version := 1, unsealStartedAt := None)
  }

  predicate TimedOut(h: Hsm, now: nat) {
    h.unsealStartedAt.Some? && h.masterKey.None? && h.unsealStartedAt.value + UNSEAL_TIMEOUT <= now
  }

  /** The key an InitMasterKey request unseals with, or the error code. */
  function Unsealing(c: Ciphers, threshold: nat, shares: seq<Share>): Result<bytes, nat> {
    if threshold == 0 then Err(400)
    else if |shares| < threshold then Err(422)
    else match Recovered(c, shares)
         case None => Err(422)
         case Some(key) => Ok(key)
  }

  /** The step ends a job of its kind. */
  predicate Ends(s: Sys, a: Action) {
    match a
    case FinishCeremony(id) => id in s.jobs && s.jobs[id].Ceremony?
    case FinishRootCa(id, _, _) => id in s.jobs && s.jobs[id].RootCa?
    case FinishLoadCa(id) => id in s.jobs && s.jobs[id].LoadCa?
    case _ => false
  }

  predicate VersionMatches(h: Hsm, asked: Option<nat>) {
    asked.None? || asked.value == h.version
  }

  function HsmAfter(c: Ciphers, s: Sys, a: Action): Hsm {
    match a
    case FinishCeremony(id) => if Ends(s, a) then Installed(s.hsm, s.jobs[id].key) else s.hsm
    case InitMasterKey(threshold, shares) =>
      (match Unsealing(c, threshold, shares) case Err(_) => s.hsm case Ok(key) => Installed(s.hsm, key))
    case FinishLoadCa(id) =>
      if Ends(s, a) then s.hsm.(caKeys := s.hsm.caKeys[s.jobs[id].tag := s.jobs[id].plain]) else s.hsm
    case StartTimer(now) => if s.hsm.unsealStartedAt.None? then s.hsm.(unsealStartedAt := Some(now)) else s.hsm
    case Tick(now) => if TimedOut(s.hsm, now) then SEALED else s.hsm
    case _ => s.hsm
  }

  /** The job a first stay leaves behind. */
  function NewJob(c: Ciphers, h: Hsm, a: Action): Option<Job> {
    match a
    case StartCeremony(_, generated) =>
      if h.initialized || generated.None? then None else Some(Ceremony(generated.value))
    case StartRootCa(_, algorithm, material) =>
      if h.masterKey.None? || Trimmed(algorithm) != "ECDSA_P256" || material.None? then None
      else Some(RootCa(material.value.0, material.value.1))
    case StartLoadCa(_, tag, blob) =>
      if h.masterKey.None? then None
      else (match DecryptBytes(c, h.masterKey.value, blob)
            case None => None
            case Some(plain) => Some(LoadCa(tag, plain)))
    case _ => None
  }

  function JobsAfter(c: Ciphers, s: Sys, a: Action): map<nat, Job> {
    match a
    case StartCeremony(id, _) => Opened(c, s, a, id)
    case StartRootCa(id, _, _) => Opened(c, s, a, id)
    case StartLoadCa(id, _, _) => Opened(c, s, a, id)
    case _ => if Ends(s, a) then s.jobs - {a.id} else s.jobs
  }

  /** Requests in flight have different ids. */
  function Opened(c: Ciphers, s: Sys, a: Action, id: nat): map<nat, Job> {
    if id in s.jobs || NewJob(c, s.hsm, a).None? then s.jobs else s.jobs[id := NewJob(c, s.hsm, a).value]
  }

  function Next(c: Ciphers, s: Sys, a: Action): Sys {
    Sys(HsmAfter(c, s, a), JobsAfter(c, s, a))
  }

  function Reply(c: Ciphers, s: Sys, a: Action): Response {
    match a
    case StartCeremony(_, generated) =>
      if s.hsm.initialized then Error(400) else if generated.None? then Error(500) else Working
    case FinishCeremony(_) => if Ends(s, a) then CeremonyGenerated else Working
    case InitMasterKey(threshold, shares) =>
      (match Unsealing(c, threshold, shares) case Err(code) => Error(code) case Ok(_) => MasterKeyInitialized)
    case StartRootCa(_, algorithm, material) =>
      if s.hsm.masterKey.None? then Error(403) else if Trimmed(algorithm) != "ECDSA_P256" then Error(400)
      else if material.None? then Error(500) else Working
    case FinishRootCa(id, nonce1, nonce2) =>
      if Ends(s, a) then RootCaReply(c, s.hsm, s.jobs[id], nonce1, nonce2) else Working
    case StartLoadCa(_, tag, blob) =>
      if s.hsm.masterKey.None? then Error(403)
      else if DecryptBytes(c, s.hsm.masterKey.value, blob).None? then Error(422) else Working
    case FinishLoadCa(_) => if Ends(s, a) then MasterKeyInitialized else Working
    case GenerateKek(algorithm, kek, nonce) => KekReply(c, s.hsm, algorithm, kek, nonce)
    case GenerateDataKey(wrapped, version, algorithm, dek, nonce) =>
      DekReply(c, s.hsm, wrapped, version, algorithm, dek, nonce)
    case Encrypt(keyId, version, plain, nonce) => EncryptReply(c, s.hsm, keyId, version, plain, nonce)
    case Decrypt(keyId, version, ciphertext) => DecryptReply(c, s.hsm, keyId, version, ciphertext)
    case StartTimer(_) => Working
    case Tick(_) => Working
  }

  /** The second stay of InitRootCa takes the key for granted. */
  function RootCaReply(c: Ciphers, h: Hsm, job: Job, nonce1: Nonce, nonce2: Nonce): Response
    requires job.RootCa?
  {
    if h.masterKey.None? then Panic
    else if EncryptBytes(c, h.masterKey.value, nonce1, job.first).None? then Error(500)
    else match EncryptBytes(c, h.masterKey.value, nonce2, job.second)
         case None => Error(500)
         case Some(wrapped) => RootCaKeyGenerated(wrapped, h.version)
  }

  function KekReply(c: Ciphers, h: Hsm, algorithm: string, kek: Key, nonce: Nonce): Response {
    if h.masterKey.None? then Error(403)
    else if Trimmed(algorithm) != "AES256GCM" then Error(400)
    else match EncryptBytes(c, h.masterKey.value, nonce, kek)
         case None => Error(500)
         case Some(wrapped) => KekGenerated(wrapped, h.version)
  }

  function DekReply(
      c: Ciphers, h: Hsm, wrappedKek: bytes, version: Option<nat>, algorithm: string, dek: Key, nonce: Nonce): Response
  {
    if h.masterKey.None? then Error(403)
    else if version.Some? && version.value != 1 then Error(409)
    else if Trimmed(algorithm) != "AES256GCM" then Error(400)
    else match DecryptBytes(c, h.masterKey.value, wrappedKek)
         case None => Error(500)
         case Some(kek) =>
           match EncryptBytes(c, kek, nonce, dek)
           case None => Error(500)
           case Some(wrapped) => DataKeyGenerated(dek, wrapped, h.version)
  }

  function EncryptReply(c: Ciphers, h: Hsm, keyId: string, version: Option<nat>, plain: bytes, nonce: Nonce): Response {
    if keyId != "master_key" then Error(404)
    else if h.masterKey.None? then Error(403)
    else if !VersionMatches(h, version) then Error(409)
    else match EncryptBytes(c, h.masterKey.value, nonce, plain)
         case None => Error(500)
         case Some(ciphertext) => Encrypted(ciphertext, h.version)
  }

  function DecryptReply(c: Ciphers, h: Hsm, keyId: string, version: Option<nat>, ciphertext: bytes): Response {
    if keyId != "master_key" then Error(404)
    else if h.masterKey.None? then Error(403)
    else if !VersionMatches(h, version) then Error(409)
    else match DecryptBytes(c, h.masterKey.value, ciphertext)
         case None => Error(500)
         case Some(plaintext) => Decrypted(plaintext, h.version)
  }

  function After(c: Ciphers, s: Sys, run: seq<Action>): Sys {
    if run == [] then s else Next(c, After(c, s, run[..|run| - 1]), run[|run| - 1])
  }

  /** The request carries as many shares as its threshold asks for, all different, and they make a key. */
  ghost predicate Suffices(c: Ciphers, threshold: nat, shares: seq<Share>) {
    && 1 <= threshold <= |shares|
    && (forall i, j :: 0 <= i < j < |shares| ==> shares[i].0 != shares[j].0)
    && Combine(c, shares).Some? && |Combine(c, shares).value| == 32
  }

  /** InitMasterKey puts in force the key its shares make, if they suffice, and does nothing otherwise. */
  lemma {:induction false} UnsealsIff(c: Ciphers, s: Sys, threshold: nat, shares: seq<Share>)
    ensures var r, e := Reply(c, s, InitMasterKey(threshold, shares)), Next(c, s, InitMasterKey(threshold, shares));
            && (r == MasterKeyInitialized <==> Suffices(c, threshold, shares))
            && (r == Error(400) <==> threshold == 0)
            && (r == Error(422) <==> threshold > 0 && !Suffices(c, threshold, shares))
            && e.jobs == s.jobs && (!Suffices(c, threshold, shares) ==> e == s)
            && (Suffices(c, threshold, shares) ==>
                  e.hsm == Hsm(true, 1, Combine(c, shares), None, s.hsm.caKeys))
  {
    if Suffices(c, threshold, shares) {
      assert Distinct(shares) && shares != [];
    }
  }

  // ---------------------------------------------------------------- the invariant

  /** Unsealed, with a 32-byte key and version 1, or sealed and empty. */
  ghost predicate WellSealed(h: Hsm) {
    if h.initialized then h.masterKey.Some? && |h.masterKey.value| == KEY_SIZE && h.version == 1
    else h.masterKey.None? && h.version == 0 && h.caKeys == map[]
  }

  /** Handlers past their first look at the key keep it: the vHSM is unsealed while they run. */
  ghost predicate JobsUnsealed(s: Sys) {
    forall id :: id in s.jobs && !s.jobs[id].Ceremony? ==> s.hsm.initialized
  }

  ghost predicate Inv(s: Sys) {
    WellSealed(s.hsm) && JobsUnsealed(s)
  }

  lemma {:induction false} StepKeepsInv(c: Ciphers, s: Sys, a: Action)
    requires Inv(s)
    ensures Inv(Next(c, s, a)) && (s.hsm.initialized ==> Next(c, s, a).hsm.initialized)
  {
  }

  lemma {:induction false} RunKeepsInv(c: Ciphers, s: Sys, run: seq<Action>)
    requires Inv(s)
    ensures Inv(After(c, s, run)) && (s.hsm.initialized ==> After(c, s, run).hsm.initialized)
    decreases |run|
  {
    if run != [] {
      RunKeepsInv(c, s, run[..|run| - 1]);
      StepKeepsInv(c, After(c, s, run[..|run| - 1]), run[|run| - 1]);
    }
  }

  lemma {:induction false} RunSplit(c: Ciphers, s: Sys, first: seq<Action>, second: seq<Action>)
    ensures After(c, s, first + second) == After(c, After(c, s, first), second)
    decreases |second|
  {
    hide Next;
    if second == [] {
      assert first + second == first;
    } else {
      var n := |second| - 1;
      RunSplit(c, s, first, second[..n]);
      assert (first + second)[..|first| + n] == first + second[..n];
    }
  }

  /**
   In every interleaving: initialized exactly when a 32-byte key is present, and then the
   version is 1, else 0; loaded CA keys imply unsealed; once unsealed, always unsealed.
   */
  lemma {:induction false} EveryInterleaving(c: Ciphers, run: seq<Action>, more: seq<Action>)
    ensures var h := After(c, START, run).hsm;
            && (h.initialized <==> h.masterKey.Some?)
            && (h.masterKey.Some? ==> |h.masterKey.value| == KEY_SIZE)
            && h.version == (if h.initialized then 1 else 0)
            && (h.caKeys != map[] ==> h.initialized)
            && (h.initialized ==> After(c, START, run + more).hsm.initialized)
  {
    hide After;
    assert Inv(START);
    RunKeepsInv(c, START, run);
    RunKeepsInv(c, After(c, START, run), more);
    RunSplit(c, START, run, more);
  }

  /** InitRootCa's second look always finds the key. */
  lemma {:induction false} RootCaNeverPanics(c: Ciphers, run: seq<Action>, a: Action)
    ensures Reply(c, After(c, START, run), a) != Panic
  {
    assert Inv(START);
    RunKeepsInv(c, START, run);
  }

  /** The timeout checker only ever clears a timer. */
  lemma {:induction false} TickClearsTimerOnly(c: Ciphers, run: seq<Action>, now: nat)
    ensures var s := After(c, START, run);
            var t := Next(c, s, Tick(now));
            t == s || (TimedOut(s.hsm, now) && t == s.(hsm := s.hsm.(unsealStartedAt := None)))
  {
    assert Inv(START);
    RunKeepsInv(c, START, run);
  }

  lemma {:induction false} CaKeysStay(c: Ciphers, s: Sys, run: seq<Action>)
    requires Inv(s)
    ensures s.hsm.caKeys.Keys <= After(c, s, run).hsm.caKeys.Keys
    decreases |run|
  {
    if run != [] {
      var t := After(c, s, run[..|run| - 1]);
      CaKeysStay(c, s, run[..|run| - 1]);
      RunKeepsInv(c, s, run[..|run| - 1]);
      assert t.hsm.caKeys.Keys <= HsmAfter(c, t, run[|run| - 1]).caKeys.Keys;
    }
  }

  // ---------------------------------------------------------------- which key is in force

  /** The master key this step puts in force. */
  function Installs(c: Ciphers, s: Sys, a: Action): Option<bytes> {
    match a
    case FinishCeremony(id) => if Ends(s, a) then Some(s.jobs[id].key) else None
    case InitMasterKey(threshold, shares) =>
      (match Unsealing(c, threshold, shares) case Err(_) => None case Ok(key) => Some(key))
    case _ => None
  }

  /** The last key the run puts in force. */
  function LastInstalled(c: Ciphers, s: Sys, run: seq<Action>): Option<bytes> {
    if run == [] then None
    else
      var n := |run| - 1;
      var key := Installs(c, After(c, s, run[..n]), run[n]);
      if key.Some? then key else LastInstalled(c, s, run[..n])
  }

  /** No other step touches the master key. */
  lemma {:induction false} KeyInForce(c: Ciphers, s: Sys, run: seq<Action>)
    requires Inv(s)
    ensures After(c, s, run).hsm.masterKey ==
            if LastInstalled(c, s, run).Some? then LastInstalled(c, s, run) else s.hsm.masterKey
    decreases |run|
  {
    if run != [] {
      var n := |run| - 1;
      KeyInForce(c, s, run[..n]);
      RunKeepsInv(c, s, run[..n]);
    }
  }

  /** The key in force at the end is the one at the start. */
  ghost predicate KeyKept(c: Ciphers, s: Sys, run: seq<Action>) {
    LastInstalled(c, s, run).None? || LastInstalled(c, s, run) == s.hsm.masterKey
  }

  /**
   A ciphertext decrypts to its plaintext after any run that left the same master key in
   force; after any other run it is given to the key that is in force now.
   */
  lemma {:induction false} EncryptThenDecrypt(
      c: Ciphers, s: Sys, plain: bytes, nonce: Nonce, asked: Option<nat>, run: seq<Action>)
    requires Inv(s) && Sound(c)
    requires Reply(c, s, Encrypt("master_key", asked, plain, nonce)).Encrypted?
    ensures var r := Reply(c, s, Encrypt("master_key", asked, plain, nonce));
            var back := Reply(c, After(c, s, run), Decrypt("master_key", Some(r.version), r.ciphertext));
            && (KeyKept(c, s, run) ==> back == Decrypted(plain, r.version))
            && (!KeyKept(c, s, run) ==>
                  match DecryptBytes(c, LastInstalled(c, s, run).value, r.ciphertext)
                  case None => back == Error(500)
                  case Some(other) => back == Decrypted(other, r.version))
  {
    hide After;
    hide LastInstalled;
    RunKeepsInv(c, s, run);
    KeyInForce(c, s, run);
    DecryptsEncrypted(c, s.hsm.masterKey.value, nonce, plain);
  }

  /** The cipher idealised: a payload opens under one key only. */
  ghost predicate Committing(c: Ciphers) {
    forall key: Key, other: Key, nonce: Nonce, plain ::
      Seal(c, key, nonce, plain).Some? && other != key ==> Open(c, other, nonce, Seal(c, key, nonce, plain).value).None?
  }

  lemma {:induction false} OnlyItsKeyDecrypts(c: Ciphers, key: Key, other: Key, nonce: Nonce, plain: bytes)
    requires Committing(c) && other != key && EncryptBytes(c, key, nonce, plain).Some?
    ensures DecryptBytes(c, other, EncryptBytes(c, key, nonce, plain).value).None?
  {
    var sealed := Seal(c, key, nonce, plain).value;
    assert (nonce + sealed)[..NONCE_SIZE] == nonce;
    assert (nonce + sealed)[NONCE_SIZE..] == sealed;
  }

  /** Under such a cipher a ciphertext survives a run exactly when its master key does. */
  lemma {:induction false} DecryptsIffKept(
      c: Ciphers, s: Sys, plain: bytes, nonce: Nonce, asked: Option<nat>, run: seq<Action>)
    requires Inv(s) && Sound(c) && Committing(c)
    requires Reply(c, s, Encrypt("master_key", asked, plain, nonce)).Encrypted?
    ensures var r := Reply(c, s, Encrypt("master_key", asked, plain, nonce));
            var back := Reply(c, After(c, s, run), Decrypt("master_key", Some(r.version), r.ciphertext));
            back == (if KeyKept(c, s, run) then Decrypted(plain, r.version) else Error(500))
  {
    hide After;
    hide LastInstalled;
    RunKeepsInv(c, s, run);
    KeyInForce(c, s, run);
    EncryptThenDecrypt(c, s, plain, nonce, asked, run);
    if !KeyKept(c, s, run) {
      OnlyItsKeyDecrypts(c, s.hsm.masterKey.value, LastInstalled(c, s, run).value, nonce, plain);
    }
  }

  /** A KEK, and a data key wrapped under it later in the run, unwrap to the plaintext data key. */
  lemma {:induction false} EnvelopeRoundTrip(
      c: Ciphers, s: Sys, alg1: string, kek: Key, n1: Nonce, run: seq<Action>,
      asked: Option<nat>, alg2: string, dek: Key, n2: Nonce)
    requires Inv(s) && Sound(c) && KeyKept(c, s, run)
    requires Reply(c, s, GenerateKek(alg1, kek, n1)).KekGenerated?
    requires var w := Reply(c, s, GenerateKek(alg1, kek, n1)).wrappedKek;
             Reply(c, After(c, s, run), GenerateDataKey(w, asked, alg2, dek, n2)).DataKeyGenerated?
    ensures var w := Reply(c, s, GenerateKek(alg1, kek, n1)).wrappedKek;
            var r := Reply(c, After(c, s, run), GenerateDataKey(w, asked, alg2, dek, n2));
            && DecryptBytes(c, s.hsm.masterKey.value, w) == Some(kek)
            && DecryptBytes(c, kek, r.wrappedDek) == Some(r.plainDek)
  {
    hide After;
    KeyInForce(c, s, run);
    DecryptsEncrypted(c, s.hsm.masterKey.value, n1, kek);
    DecryptsEncrypted(c, kek, n2, dek);
  }

  predicate Finishes(a: Action, id: nat) {
    a == FinishCeremony(id) || (a.FinishRootCa? && a.id == id) || a == FinishLoadCa(id)
  }

  lemma {:induction false} JobStays(c: Ciphers, s: Sys, id: nat, run: seq<Action>)
    requires id in s.jobs && forall i :: 0 <= i < |run| ==> !Finishes(run[i], id)
    ensures id in After(c, s, run).jobs && After(c, s, run).jobs[id] == s.jobs[id]
    decreases |run|
  {
    if run != [] {
      JobStays(c, s, id, run[..|run| - 1]);
    }
  }

  /** A root CA key sent back to LoadRootCa is the one loaded, whatever ran in between. */
  lemma {:induction false} RootCaReloads(
      c: Ciphers, s: Sys, id: nat, n1: Nonce, n2: Nonce, run: seq<Action>, id2: nat, tag: string, more: seq<Action>)
    requires Inv(s) && Sound(c) && KeyKept(c, s, run)
    requires id in s.jobs && s.jobs[id].RootCa? && Reply(c, s, FinishRootCa(id, n1, n2)).RootCaKeyGenerated?
    requires id2 !in After(c, s, run).jobs
    requires forall i :: 0 <= i < |more| ==> !Finishes(more[i], id2)
    ensures var e := Reply(c, s, FinishRootCa(id, n1, n2)).encryptedKey;
            var t := Next(c, After(c, s, run), StartLoadCa(id2, tag, e));
            var u := Next(c, After(c, t, more), FinishLoadCa(id2));
            tag in u.hsm.caKeys && u.hsm.caKeys[tag] == s.jobs[id].second
  {
    hide After;
    KeyInForce(c, s, run);
    DecryptsEncrypted(c, s.hsm.masterKey.value, n2, s.jobs[id].second);
    var e := Reply(c, s, FinishRootCa(id, n1, n2)).encryptedKey;
    JobStays(c, Next(c, After(c, s, run), StartLoadCa(id2, tag, e)), id2, more);
  }

  // ---------------------------------------------------------------- ceremonies

  function Ceremonies(s: Sys): set<nat> {
    set id | id in s.jobs && s.jobs[id].Ceremony?
  }

  /** Once unsealed no ceremony starts, so only those already past their check can still install a key. */
  lemma {:induction false} CeremoniesShrink(c: Ciphers, s: Sys, run: seq<Action>)
    requires Inv(s) && s.hsm.initialized
    ensures Ceremonies(After(c, s, run)) <= Ceremonies(s)
    ensures forall id :: id in Ceremonies(After(c, s, run)) ==> After(c, s, run).jobs[id] == s.jobs[id]
    decreases |run|
  {
    if run != [] {
      var n := |run| - 1;
      CeremoniesShrink(c, s, run[..n]);
      RunKeepsInv(c, s, run[..n]);
    }
  }

  /** Each InitMasterKey request of the run that succeeds brings the key in force at the start. */
  ghost predicate SameKeyInits(c: Ciphers, s: Sys, run: seq<Action>) {
    forall i :: 0 <= i < |run| && run[i].InitMasterKey? ==>
      Unsealing(c, run[i].threshold, run[i].shares).Ok? ==>
        Some(Unsealing(c, run[i].threshold, run[i].shares).value) == s.hsm.masterKey
  }

  /** Every ceremony past its check carries the key in force. */
  ghost predicate CeremoniesAgree(s: Sys) {
    forall id :: id in Ceremonies(s) ==> Some(s.jobs[id].key) == s.hsm.masterKey
  }

  lemma {:induction false} QuietKeyKept(c: Ciphers, s: Sys, run: seq<Action>)
    requires Inv(s) && s.hsm.initialized && CeremoniesAgree(s) && SameKeyInits(c, s, run)
    ensures KeyKept(c, s, run)
    decreases |run|
  {
    if run != [] {
      var n := |run| - 1;
      assert forall i :: 0 <= i < n ==> run[..n][i] == run[i];
      QuietKeyKept(c, s, run[..n]);
      CeremoniesShrink(c, s, run[..n]);
      InstallsAgreed(c, s, After(c, s, run[..n]), run[n]);
      hide CeremoniesAgree;
      hide SameKeyInits;
    }
  }

  lemma {:induction false} InstallsAgreed(c: Ciphers, s: Sys, t: Sys, a: Action)
    requires CeremoniesAgree(s) && Ceremonies(t) <= Ceremonies(s)
    requires forall id :: id in Ceremonies(t) ==> t.jobs[id] == s.jobs[id]
    requires SameKeyInits(c, s, [a])
    ensures Installs(c, t, a).None? || Installs(c, t, a) == s.hsm.masterKey
  {
    assert [a][0] == a;
    if a.FinishCeremony? && Ends(t, a) {
      assert a.id in Ceremonies(t);
    }
  }

  /**
   Once unsealed, the master key outlasts every run whose InitMasterKey requests bring it
   again if and only if every ceremony in flight carries it.
   */
  lemma {:induction false} KeyOutlastsIff(c: Ciphers, s: Sys)
    requires Inv(s) && s.hsm.initialized
    ensures (forall run :: SameKeyInits(c, s, run) ==> KeyKept(c, s, run)) <==> CeremoniesAgree(s)
  {
    if CeremoniesAgree(s) {
      forall run | SameKeyInits(c, s, run) ensures KeyKept(c, s, run) {
        QuietKeyKept(c, s, run);
      }
    } else {
      var id :| id in Ceremonies(s) && Some(s.jobs[id].key) != s.hsm.masterKey;
      var run := [FinishCeremony(id)];
      assert run[..0] == [] && After(c, s, []) == s;
      assert LastInstalled(c, s, run) == Some(s.jobs[id].key);
      assert SameKeyInits(c, s, run) && !KeyKept(c, s, run);
    }
  }

  /** Two ceremonies that both passed the check: the second replaces a key already handed out in shares. */
  lemma {:induction false} OverlappingCeremonies(c: Ciphers, k1: Key, k2: Key)
    requires k1 != k2
    ensures var run := [StartCeremony(0, Some(k1)), StartCeremony(1, Some(k2)), FinishCeremony(0)];
            var s := After(c, START, run);
            && s.hsm.masterKey == Some(k1) && Ceremonies(s) == {1}
            && After(c, s, [FinishCeremony(1)]).hsm.masterKey == Some(k2)
  {
    var a, b, d := StartCeremony(0, Some(k1)), StartCeremony(1, Some(k2)), FinishCeremony(0);
    var s1 := Next(c, START, a);
    var s2 := Next(c, s1, b);
    var s3 := Next(c, s2, d);
    assert [a, b, d][..2] == [a, b] && [a, b][..1] == [a] && [a][..0] == [];
    assert After(c, START, [a]) == s1;
    assert After(c, START, [a, b]) == s2;
    assert After(c, START, [a, b, d]) == s3;
    assert [FinishCeremony(1)][..0] == [];
    assert After(c, s3, []) == s3;
  }
}
