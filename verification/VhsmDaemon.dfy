/**
 The vHSM's locked state as an object: one method per stay under its lock, each keeping the
 invariant of the interleavings, and drivers that run any mix of them.
 */
module VhsmDaemon {
  import opened Wrappers
  import opened Bytes
  import opened Text
  import opened VhsmCrypto
  import opened Vhsm

  class VhsmState {
    const c: Ciphers
    var initialized: bool
    var activeKeyVersion: nat
    var masterKey: Option<bytes>
    var unsealStartedAt: Option<nat>
    var activeCaKeys: map<string, bytes>
    // Requests that have given up the lock and will take it again.
    var jobs: map<nat, Job>

    ghost function View(): Hsm
      reads this
    {
      Hsm(initialized, activeKeyVersion, masterKey, unsealStartedAt, activeCaKeys)
    }

    ghost function System(): Sys
      reads this
    {
      Sys(View(), jobs)
    }

    ghost predicate Valid()
      reads this
    {
      Inv(System())
    }

    constructor (c: Ciphers)
      ensures this.c == c && System() == START && Valid()
    {
      this.c := c;
      initialized, activeKeyVersion, masterKey := false, 0, None;
      unsealStartedAt, activeCaKeys, jobs := None, map[], map[];
    }

    // ---------------------------------------------------------------- timer and sealing

    method StartUnsealTimer(now: nat)
      requires Valid()
      modifies this`unsealStartedAt
      ensures Valid() && System() == Next(c, old(System()), StartTimer(now))
      ensures unsealStartedAt == if old(unsealStartedAt).Some? then old(unsealStartedAt) else Some(now)
    {
      if unsealStartedAt.None? {
        unsealStartedAt := Some(now);
      }
    }

    method CancelUnsealTimer()
      modifies this`unsealStartedAt
      ensures View() == old(View()).(unsealStartedAt := None)
    {
      unsealStartedAt := None;
    }

    /** Clears the key and drains the loaded CA keys. */
    method ZeroizeKey()
      modifies this
      ensures View() == SEALED && jobs == old(jobs)
    {
      masterKey, initialized, activeKeyVersion, unsealStartedAt := None, false, 0, None;
      while activeCaKeys.Keys != {}
        invariant View() == SEALED.(caKeys := activeCaKeys) && jobs == old(jobs)
        decreases |activeCaKeys.Keys|
      {
        var tag :| tag in activeCaKeys.Keys;
        activeCaKeys := activeCaKeys - {tag};
        assert activeCaKeys.Keys < activeCaKeys.Keys + {tag};
      }
    }

    /** The periodic check of the unseal timeout. */
    method CheckTimeout(now: nat)
      requires Valid()
      modifies this
      ensures Valid() && System() == Next(c, old(System()), Tick(now))
      ensures if old(!initialized && unsealStartedAt.Some? && unsealStartedAt.value + 900 <= now)
              then View() == old(View()).(unsealStartedAt := None) else View() == old(View())
    {
      if unsealStartedAt.Some? && masterKey.None? && unsealStartedAt.value + UNSEAL_TIMEOUT <= now {
        ZeroizeKey();
      }
    }

    // ---------------------------------------------------------------- unsealing

    method Install(key: Key)
      requires Valid()
      modifies this
      ensures Valid() && View() == Installed(old(View()), key) && jobs == old(jobs)
    {
      masterKey := Some(key);
      initialized := true;
      activeKeyVersion := 1;
      CancelUnsealTimer();
    }

    /** GenerateCeremony up to the unlock, with the key it then makes. */
    method BeginCeremony(id: nat, generated: Option<Key>) returns (r: Response)
      requires Valid()
      modifies this`jobs
      ensures Valid() && System() == Next(c, old(System()), StartCeremony(id, generated))
      ensures r == Reply(c, old(System()), StartCeremony(id, generated))
      ensures r == Error(400) <==> initialized
      ensures r == Error(500) <==> !initialized && generated.None?
      ensures r == Working ==> id in jobs && (id !in old(jobs) ==> jobs[id] == Ceremony(generated.value))
      ensures r == Working || jobs == old(jobs)
    {
      if initialized {
        return Error(400);
      }
      if generated.None? {
        return Error(500);
      }
      if id !in jobs {
        jobs := jobs[id := Ceremony(generated.value)];
      }
      r := Working;
    }

    method EndCeremony(id: nat) returns (r: Response)
      requires Valid()
      modifies this
      ensures Valid() && System() == Next(c, old(System()), FinishCeremony(id))
      ensures r == Reply(c, old(System()), FinishCeremony(id))
      ensures r == CeremonyGenerated <==> id in old(jobs) && old(jobs)[id].Ceremony?
      ensures r == CeremonyGenerated ==>
                && masterKey == Some(old(jobs)[id].key) && initialized && activeKeyVersion == 1
                && unsealStartedAt == None && activeCaKeys == old(activeCaKeys) && jobs == old(jobs) - {id}
      ensures r == CeremonyGenerated || System() == old(System())
    {
      if id !in jobs || !jobs[id].Ceremony? {
        return Working;
      }
      Install(jobs[id].key);
      jobs := jobs - {id};
      r := CeremonyGenerated;
    }

    method InitMaster(threshold: nat, shares: seq<Share>) returns (r: Response)
      requires Valid()
      modifies this
      ensures Valid() && System() == Next(c, old(System()), InitMasterKey(threshold, shares))
      ensures r == Reply(c, old(System()), InitMasterKey(threshold, shares))
      ensures r == MasterKeyInitialized <==>
                && 1 <= threshold <= |shares|
                && (forall i, j :: 0 <= i < j < |shares| ==> shares[i].0 != shares[j].0)
                && Combine(c, shares).Some? && |Combine(c, shares).value| == 32
      ensures r == MasterKeyInitialized ==>
                && masterKey == Combine(c, shares) && initialized && activeKeyVersion == 1 && unsealStartedAt == None
                && activeCaKeys == old(activeCaKeys) && jobs == old(jobs)
      ensures r == Error(400) <==> threshold == 0
      ensures r == MasterKeyInitialized || ((r == Error(400) || r == Error(422)) && System() == old(System()))
    {
      if threshold == 0 {
        return Error(400);
      }
      if |shares| < threshold {
        return Error(422);
      }
      var recovered := ReconstructMasterKey(c, shares);
      if recovered.Err? {
        return Error(422);
      }
      Install(recovered.value);
      r := MasterKeyInitialized;
    }

    // ---------------------------------------------------------------- CA keys

    /** InitRootCa up to the second lock. */
    method BeginRootCa(id: nat, algorithm: string, material: Option<(bytes, bytes)>) returns (r: Response)
      requires Valid()
      modifies this`jobs
      ensures Valid() && System() == Next(c, old(System()), StartRootCa(id, algorithm, material))
      ensures r == Reply(c, old(System()), StartRootCa(id, algorithm, material))
      ensures r == Error(403) <==> !initialized
      ensures r == Error(400) <==> initialized && Trimmed(algorithm) != "ECDSA_P256"
      ensures r == Error(500) <==> initialized && Trimmed(algorithm) == "ECDSA_P256" && material.None?
      ensures r == Working ==>
                id in jobs && (id !in old(jobs) ==> jobs[id] == RootCa(material.value.0, material.value.1))
      ensures r == Working || jobs == old(jobs)
    {
      if masterKey.None? {
        return Error(403);
      }
      if Trimmed(algorithm) != "ECDSA_P256" {
        return Error(400);
      }
      if material.None? {
        return Error(500);
      }
      if id !in jobs {
        jobs := jobs[id := RootCa(material.value.0, material.value.1)];
      }
      r := Working;
    }

    /** The second half reads the key without a check, which the invariant makes good. */
    method EndRootCa(id: nat, nonce1: Nonce, nonce2: Nonce) returns (r: Response)
      requires Valid()
      modifies this`jobs
      ensures Valid() && System() == Next(c, old(System()), FinishRootCa(id, nonce1, nonce2))
      ensures r == Reply(c, old(System()), FinishRootCa(id, nonce1, nonce2)) && r != Panic
      ensures r == Working <==> id !in old(jobs) || !old(jobs)[id].RootCa?
      ensures r == Working || jobs == old(jobs) - {id}
      ensures r == Error(500) ==> EncryptBytes(c, masterKey.value, nonce1, old(jobs)[id].first).None? ||
                                  EncryptBytes(c, masterKey.value, nonce2, old(jobs)[id].second).None?
      ensures r.RootCaKeyGenerated? ==>
                && EncryptBytes(c, masterKey.value, nonce1, old(jobs)[id].first).Some? && r.version == 1
                && EncryptBytes(c, masterKey.value, nonce2, old(jobs)[id].second) == Some(r.encryptedKey)
      ensures r == Working || r == Error(500) || r.RootCaKeyGenerated?
    {
      if id !in jobs || !jobs[id].RootCa? {
        return Working;
      }
      var key, job := masterKey.value, jobs[id];
      jobs := jobs - {id};
      var discarded := EncryptBytes(c, key, nonce1, job.first);
      if discarded.None? {
        return Error(500);
      }
      var wrapped := EncryptBytes(c, key, nonce2, job.second);
      if wrapped.None? {
        return Error(500);
      }
      r := RootCaKeyGenerated(wrapped.value, activeKeyVersion);
    }

    method BeginLoadCa(id: nat, tag: string, blob: bytes) returns (r: Response)
      requires Valid()
      modifies this`jobs
      ensures Valid() && System() == Next(c, old(System()), StartLoadCa(id, tag, blob))
      ensures r == Reply(c, old(System()), StartLoadCa(id, tag, blob))
      ensures r == Error(403) <==> !initialized
      ensures r == Error(422) <==> initialized && DecryptBytes(c, masterKey.value, blob).None?
      ensures r == Working ==> id in jobs
      ensures r == Working && id !in old(jobs) ==>
                && jobs[id].LoadCa? && jobs[id].tag == tag
                && DecryptBytes(c, masterKey.value, blob) == Some(jobs[id].plain)
      ensures r == Working || jobs == old(jobs)
    {
      if masterKey.None? {
        return Error(403);
      }
      var plain := DecryptBytes(c, masterKey.value, blob);
      if plain.None? {
        return Error(422);
      }
      if id !in jobs {
        jobs := jobs[id := LoadCa(tag, plain.value)];
      }
      r := Working;
    }

    method EndLoadCa(id: nat) returns (r: Response)
      requires Valid()
      modifies this`jobs, this`activeCaKeys
      ensures Valid() && System() == Next(c, old(System()), FinishLoadCa(id))
      ensures r == Reply(c, old(System()), FinishLoadCa(id))
      ensures r == MasterKeyInitialized <==> id in old(jobs) && old(jobs)[id].LoadCa?
      ensures r == MasterKeyInitialized ==>
                activeCaKeys == old(activeCaKeys)[old(jobs)[id].tag := old(jobs)[id].plain] && jobs == old(jobs) - {id}
      ensures r == MasterKeyInitialized || System() == old(System())
    {
      if id !in jobs || !jobs[id].LoadCa? {
        return Working;
      }
      activeCaKeys := activeCaKeys[jobs[id].tag := jobs[id].plain];
      jobs := jobs - {id};
      r := MasterKeyInitialized;
    }

    // ---------------------------------------------------------------- wrapping and encryption

    method GenerateKekFor(algorithm: string, kek: Key, nonce: Nonce) returns (r: Response)
      ensures r == Reply(c, System(), GenerateKek(algorithm, kek, nonce))
      ensures Valid() ==> (r == Error(403) <==> !initialized) && (r.KekGenerated? ==> r.rootVersion == 1)
      ensures r == Error(400) <==> masterKey.Some? && Trimmed(algorithm) != "AES256GCM"
      ensures r == Error(500) ==> EncryptBytes(c, masterKey.value, nonce, kek).None?
      ensures r.KekGenerated? ==> EncryptBytes(c, masterKey.value, nonce, kek) == Some(r.wrappedKek)
      ensures r.KekGenerated? && Sound(c) ==> DecryptBytes(c, masterKey.value, r.wrappedKek) == Some(kek)
    {
      if masterKey.None? {
        return Error(403);
      }
      if Trimmed(algorithm) != "AES256GCM" {
        return Error(400);
      }
      var wrapped := EncryptBytes(c, masterKey.value, nonce, kek);
      r := if wrapped.None? then Error(500) else KekGenerated(wrapped.value, activeKeyVersion);
      if wrapped.Some? && Sound(c) {
        DecryptsEncrypted(c, masterKey.value, nonce, kek);
      }
    }

    method GenerateDek(wrappedKek: bytes, kekVersion: Option<nat>, algorithm: string, dek: Key, nonce: Nonce)
      returns (r: Response)
      ensures r == Reply(c, System(), GenerateDataKey(wrappedKek, kekVersion, algorithm, dek, nonce))
      ensures Valid() ==> (r == Error(403) <==> !initialized) && (r.DataKeyGenerated? ==> r.rootVersion == 1)
      ensures r == Error(409) <==> masterKey.Some? && kekVersion.Some? && kekVersion.value != 1
      ensures r == Error(400) <==>
                masterKey.Some? && (kekVersion.None? || kekVersion.value == 1) && Trimmed(algorithm) != "AES256GCM"
      ensures r == Error(500) ==> DecryptBytes(c, masterKey.value, wrappedKek).None? ||
                                  EncryptBytes(c, DecryptBytes(c, masterKey.value, wrappedKek).value, nonce, dek).None?
      ensures r.DataKeyGenerated? ==>
                && r.plainDek == dek && DecryptBytes(c, masterKey.value, wrappedKek).Some?
                && EncryptBytes(c, DecryptBytes(c, masterKey.value, wrappedKek).value, nonce, dek) == Some(r.wrappedDek)
      ensures r.DataKeyGenerated? && Sound(c) ==>
                DecryptBytes(c, DecryptBytes(c, masterKey.value, wrappedKek).value, r.wrappedDek) == Some(dek)
    {
      if masterKey.None? {
        return Error(403);
      }
      if kekVersion.Some? && kekVersion.value != 1 {
        return Error(409);
      }
      if Trimmed(algorithm) != "AES256GCM" {
        return Error(400);
      }
      var kek := DecryptBytes(c, masterKey.value, wrappedKek);
      if kek.None? {
        return Error(500);
      }
      var wrapped := EncryptBytes(c, kek.value, nonce, dek);
      r := if wrapped.None? then Error(500) else DataKeyGenerated(dek, wrapped.value, activeKeyVersion);
      if wrapped.Some? && Sound(c) {
        DecryptsEncrypted(c, kek.value, nonce, dek);
      }
    }

    method EncryptWith(keyId: string, keyVersion: Option<nat>, plain: bytes, nonce: Nonce) returns (r: Response)
      ensures r == Reply(c, System(), Encrypt(keyId, keyVersion, plain, nonce))
      ensures Valid() ==> (r == Error(403) <==> keyId == "master_key" && !initialized)
      ensures Valid() && r.Encrypted? ==> r.version == 1
      ensures r == Error(404) <==> keyId != "master_key"
      ensures r == Error(409) <==> keyId == "master_key" && masterKey.Some? &&
                                   keyVersion.Some? && keyVersion.value != activeKeyVersion
      ensures r == Error(500) ==> EncryptBytes(c, masterKey.value, nonce, plain).None?
      ensures r.Encrypted? ==> EncryptBytes(c, masterKey.value, nonce, plain) == Some(r.ciphertext)
      ensures r.Encrypted? && Sound(c) ==> DecryptBytes(c, masterKey.value, r.ciphertext) == Some(plain)
    {
      if keyId != "master_key" {
        return Error(404);
      }
      if masterKey.None? {
        return Error(403);
      }
      if keyVersion.Some? && keyVersion.value != activeKeyVersion {
        return Error(409);
      }
      var ciphertext := EncryptBytes(c, masterKey.value, nonce, plain);
      r := if ciphertext.None? then Error(500) else Encrypted(ciphertext.value, activeKeyVersion);
      if ciphertext.Some? && Sound(c) {
        DecryptsEncrypted(c, masterKey.value, nonce, plain);
      }
    }

    method DecryptWith(keyId: string, keyVersion: Option<nat>, ciphertext: bytes) returns (r: Response)
      ensures r == Reply(c, System(), Decrypt(keyId, keyVersion, ciphertext))
      ensures Valid() ==> (r == Error(403) <==> keyId == "master_key" && !initialized)
      ensures Valid() && r.Decrypted? ==> r.version == 1
      ensures r == Error(404) <==> keyId != "master_key"
      ensures r == Error(409) <==> keyId == "master_key" && masterKey.Some? &&
                                   keyVersion.Some? && keyVersion.value != activeKeyVersion
      ensures r == Error(500) ==> DecryptBytes(c, masterKey.value, ciphertext).None?
      ensures r.Decrypted? ==> DecryptBytes(c, masterKey.value, ciphertext) == Some(r.plaintext)
      ensures Sound(c) && r.Decrypted? ==>
                forall plain, nonce: Nonce :: EncryptBytes(c, masterKey.value, nonce, plain) == Some(ciphertext) ==>
                  r.plaintext == plain
    {
      if keyId != "master_key" {
        return Error(404);
      }
      if masterKey.None? {
        return Error(403);
      }
      if keyVersion.Some? && keyVersion.value != activeKeyVersion {
        return Error(409);
      }
      var plaintext := DecryptBytes(c, masterKey.value, ciphertext);
      r := if plaintext.None? then Error(500) else Decrypted(plaintext.value, activeKeyVersion);
      if Sound(c) {
        forall plain, nonce: Nonce | EncryptBytes(c, masterKey.value, nonce, plain) == Some(ciphertext)
          ensures plaintext == Some(plain)
        {
          DecryptsEncrypted(c, masterKey.value, nonce, plain);
        }
      }
    }

    // ---------------------------------------------------------------- any mix of requests

    /** Whoever gets the lock next. */
    method Stay(a: Action) returns (r: Response)
      requires Valid()
      modifies this
      ensures Valid() && System() == Next(c, old(System()), a)
      ensures r == Reply(c, old(System()), a) && r != Panic
    {
      match a
      case StartCeremony(id, generated) => r := BeginCeremony(id, generated);
      case FinishCeremony(id) => r := EndCeremony(id);
      case InitMasterKey(threshold, shares) => r := InitMaster(threshold, shares);
      case StartRootCa(id, algorithm, material) => r := BeginRootCa(id, algorithm, material);
      case FinishRootCa(id, nonce1, nonce2) => r := EndRootCa(id, nonce1, nonce2);
      case StartLoadCa(id, tag, blob) => r := BeginLoadCa(id, tag, blob);
      case FinishLoadCa(id) => r := EndLoadCa(id);
      case GenerateKek(algorithm, kek, nonce) => r := GenerateKekFor(algorithm, kek, nonce);
      case GenerateDataKey(wrapped, version, algorithm, dek, nonce) =>
        r := GenerateDek(wrapped, version, algorithm, dek, nonce);
      case Encrypt(keyId, version, plain, nonce) => r := EncryptWith(keyId, version, plain, nonce);
      case Decrypt(keyId, version, ciphertext) => r := DecryptWith(keyId, version, ciphertext);
      case StartTimer(now) => StartUnsealTimer(now); r := Working;
      case Tick(now) => CheckTimeout(now); r := Working;
    }

    /** Any interleaving: the state the machine reaches, the answer to each stay, and never a panic. */
    method Serve(run: seq<Action>) returns (replies: seq<Response>)
      requires Valid()
      modifies this
      ensures Valid() && System() == After(c, old(System()), run)
      ensures |replies| == |run| && Panic !in replies
      ensures forall i :: 0 <= i < |run| ==> replies[i] == Reply(c, After(c, old(System()), run[..i]), run[i])
    {
      hide Next;
      hide Reply;
      hide Inv;
      ghost var start := System();
      replies := [];
      for n := 0 to |run|
        invariant Valid() && System() == After(c, start, run[..n])
        invariant |replies| == n && Panic !in replies
        invariant forall i :: 0 <= i < n ==> replies[i] == Reply(c, After(c, start, run[..i]), run[i])
      {
        var r := Stay(run[n]);
        assert run[..n + 1][..n] == run[..n];
        replies := replies + [r];
      }
      assert run[..|run|] == run;
    }

    /** InitRootCa with whatever else happens between its two locks: once begun, it is answered. */
    method InitRootCa(
        id: nat, algorithm: string, material: Option<(bytes, bytes)>, between: seq<Action>,
        nonce1: Nonce, nonce2: Nonce)
      returns (r: Response)
      requires Valid() && id !in jobs && forall i :: 0 <= i < |between| ==> !Finishes(between[i], id)
      modifies this
      ensures Valid() && r != Panic && r != Working
      ensures r == Error(403) <==> old(masterKey).None?
      ensures r == Error(400) <==> old(masterKey).Some? && Trimmed(algorithm) != "ECDSA_P256"
      ensures r == Error(500) && material.Some? ==>
                masterKey.Some? && (EncryptBytes(c, masterKey.value, nonce1, material.value.0).None? ||
                                    EncryptBytes(c, masterKey.value, nonce2, material.value.1).None?)
      ensures r.RootCaKeyGenerated? || r == Error(403) || r == Error(400) || r == Error(500)
      ensures r.RootCaKeyGenerated? ==>
                && material.Some? && masterKey.Some? && r.version == 1
                && EncryptBytes(c, masterKey.value, nonce2, material.value.1) == Some(r.encryptedKey)
    {
      r := BeginRootCa(id, algorithm, material);
      if r != Working {
        return;
      }
      ghost var begun := System();
      var replies := Serve(between);
      JobStays(c, begun, id, between);
      r := EndRootCa(id, nonce1, nonce2);
    }
  }
}
