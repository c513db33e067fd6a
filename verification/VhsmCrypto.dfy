/** Key reconstruction and the AES-GCM byte layout of the vHSM daemon. The cipher and Shamir's scheme are parameters. */
module VhsmCrypto {
  import opened Wrappers
  import opened Bytes

  const KEY_SIZE: nat := 32
  const NONCE_SIZE: nat := 12

  type Key = k: bytes | |k| == KEY_SIZE
    witness [0, 0, 0, 0, 0, 0, 0, 0, 0, 0, 0, 0, 0, 0, 0, 0, 0, 0, 0, 0, 0, 0, 0, 0, 0, 0, 0, 0, 0, 0, 0, 0]

  type Nonce = n: bytes | |n| == NONCE_SIZE witness [0, 0, 0, 0, 0, 0, 0, 0, 0, 0, 0, 0]

  type Share = (byte, string)

  /** `seal` and `open` take a key and a nonce; `combine` is Shamir's reconstruction. Each may fail. */
  datatype Ciphers = Ciphers(
    seal: (bytes, bytes, bytes) -> Option<bytes>,
    open: (bytes, bytes, bytes) -> Option<bytes>,
    combine: seq<Share> -> Option<bytes>)

  function Seal(c: Ciphers, key: bytes, nonce: bytes, plain: bytes): Option<bytes> {
    c.seal(key, nonce, plain)
  }

  function Open(c: Ciphers, key: bytes, nonce: bytes, sealed: bytes): Option<bytes> {
    c.open(key, nonce, sealed)
  }

  function Combine(c: Ciphers, shares: seq<Share>): Option<bytes> {
    c.combine(shares)
  }

  /** Opening undoes sealing under the same key and nonce. */
  ghost predicate Sound(c: Ciphers) {
    forall key: Key, nonce: Nonce, plain ::
      Seal(c, key, nonce, plain).Some? ==> Open(c, key, nonce, Seal(c, key, nonce, plain).value) == Some(plain)
  }

  // ---------------------------------------------------------------- payloads

  /** `encrypt_bytes`: the nonce, then what the cipher made. */
  function EncryptBytes(c: Ciphers, key: bytes, nonce: Nonce, plain: bytes): Option<bytes> {
    if |key| != KEY_SIZE then None
    else match Seal(c, key, nonce, plain)
         case None => None
         case Some(sealed) => Some(nonce + sealed)
  }

  /** `decrypt_bytes`. */
  function DecryptBytes(c: Ciphers, key: bytes, payload: bytes): Option<bytes> {
    if |payload| < NONCE_SIZE || |key| != KEY_SIZE then None
    else Open(c, key, payload[..NONCE_SIZE], payload[NONCE_SIZE..])
  }

  /** A payload is twelve bytes of nonce and then the cipher's output, under a key of 32 bytes. */
  lemma {:induction false} PayloadLayout(c: Ciphers, key: bytes, nonce: Nonce, plain: bytes, payload: bytes)
    ensures EncryptBytes(c, key, nonce, plain) == Some(payload) <==>
            && |key| == 32 && |payload| >= 12 && payload[..12] == nonce
            && Seal(c, key, nonce, plain) == Some(payload[12..])
    ensures DecryptBytes(c, key, payload) == Some(plain) <==>
            |key| == 32 && |payload| >= 12 && Open(c, key, payload[..12], payload[12..]) == Some(plain)
  {
    if |payload| >= 12 {
      assert payload == payload[..12] + payload[12..];
    }
    if EncryptBytes(c, key, nonce, plain) == Some(payload) {
      assert payload[..12] == nonce && payload[12..] == Seal(c, key, nonce, plain).value;
    }
  }

  /** Whatever was encrypted decrypts under the same key. */
  lemma {:induction false} DecryptsEncrypted(c: Ciphers, key: bytes, nonce: Nonce, plain: bytes)
    requires Sound(c) && EncryptBytes(c, key, nonce, plain).Some?
    ensures DecryptBytes(c, key, EncryptBytes(c, key, nonce, plain).value) == Some(plain)
  {
    var sealed := Seal(c, key, nonce, plain).value;
    assert (nonce + sealed)[..NONCE_SIZE] == nonce;
    assert (nonce + sealed)[NONCE_SIZE..] == sealed;
  }

  // ---------------------------------------------------------------- reconstruction

  predicate Distinct(shares: seq<Share>) {
    forall i, j :: 0 <= i < j < |shares| ==> shares[i].0 != shares[j].0
  }

  /** The master key the shares stand for. */
  function Recovered(c: Ciphers, shares: seq<Share>): (r: Option<bytes>)
    ensures r.Some? ==> |r.value| == KEY_SIZE
  {
    if shares == [] || !Distinct(shares) then None
    else match Combine(c, shares)
         case None => None
         case Some(key) => if |key| == KEY_SIZE then Some(key) else None
  }

  datatype ReconstructError = NoShares | DuplicateIndex(index: byte) | CombineFailed | WrongLength

  /** `n` is the first share whose index was seen before. */
  ghost predicate FirstRepeat(shares: seq<Share>, n: nat) {
    n < |shares| && Distinct(shares[..n]) && exists i :: 0 <= i < n && shares[i].0 == shares[n].0
  }

  /** `reconstruct_master_key`. */
  method ReconstructMasterKey(c: Ciphers, shares: seq<Share>) returns (r: Result<bytes, ReconstructError>)
    ensures r.Ok? ==> Recovered(c, shares) == Some(r.value)
    ensures r.Err? ==> Recovered(c, shares) == None
    ensures r.Ok? <==>
              && |shares| >= 1 && (forall i, j :: 0 <= i < j < |shares| ==> shares[i].0 != shares[j].0)
              && Combine(c, shares).Some? && |Combine(c, shares).value| == 32
    ensures r.Ok? ==> Combine(c, shares) == Some(r.value)
    ensures r == Err(NoShares) <==> shares == []
    ensures r == Err(CombineFailed) <==> shares != [] && Distinct(shares) && Combine(c, shares).None?
    ensures r.Err? && r.error.DuplicateIndex? ==>
              exists n: nat :: FirstRepeat(shares, n) && r.error.index == shares[n].0
    ensures (r.Err? && r.error.DuplicateIndex?) <==> !Distinct(shares)
  {
    if shares == [] {
      return Err(NoShares);
    }
    var seen: set<byte> := {};
    for n := 0 to |shares|
      invariant forall i :: 0 <= i < n ==> shares[i].0 in seen
      invariant forall x :: x in seen ==> exists i :: 0 <= i < n && shares[i].0 == x
      invariant Distinct(shares[..n])
    {
      if shares[n].0 in seen {
        assert FirstRepeat(shares, n);
        return Err(DuplicateIndex(shares[n].0));
      }
      seen := seen + {shares[n].0};
      assert shares[..n + 1] == shares[..n] + [shares[n]];
    }
    assert shares[..|shares|] == shares;
    var key := Combine(c, shares);
    if key.None? {
      return Err(CombineFailed);
    }
    if |key.value| != KEY_SIZE {
      return Err(WrongLength);
    }
    r := Ok(key.value);
  }
}
