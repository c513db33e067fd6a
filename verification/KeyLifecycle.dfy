/** What every run of key operations keeps of the `keys` table. */
module KeyLifecycle {
  import opened Wrappers
  import opened KeyTable

  // ---------------------------------------------------------------- invariants

  /** Versions of a pair are distinct and start at 1 without gaps; at most one is active; no key is ECDSA_P256. */
  ghost predicate Consistent(t: Table) {
    && (forall i, j :: 0 <= i < j < |t| ==> !SameKey(t[i], t[j]))
    && (forall i :: 0 <= i < |t| ==> t[i].version >= 1 && HasPredecessor(t, t[i]))
    && (forall i :: 0 <= i < |t| ==> (t[i].isActive <==> t[i].status == Active))
    && (forall i :: 0 <= i < |t| ==> !t[i].pair.algorithm.EcdsaP256?)
    && (forall i, j :: 0 <= i < j < |t| ==> !(t[i].isActive && t[j].isActive && t[i].pair == t[j].pair))
  }

  ghost predicate HasVersion(t: Table, p: Pair, v: nat) {
    exists i :: 0 <= i < |t| && t[i].pair == p && t[i].version == v
  }

  ghost predicate HasPredecessor(t: Table, r: KeyRow) {
    r.version > 1 ==> HasVersion(t, r.pair, r.version - 1)
  }

  /** Every pair that has a key has an active one, and it is the newest. */
  ghost predicate Current(t: Table) {
    forall i :: 0 <= i < |t| ==> t[i].version <= ActiveVersion(t, t[i].pair)
  }

  lemma {:induction false} ActiveRowIs(t: Table, i: nat)
    requires i < |t| && t[i].isActive && Consistent(t)
    ensures ActiveRow(t, t[i].pair) == Some(t[i])
  {
    var r := ActiveRow(t, t[i].pair).value;
    var j :| 0 <= j < |t| && t[j] == r;
    if j < i {
      assert !(t[j].isActive && t[i].isActive && t[j].pair == t[i].pair);
    } else if i < j {
      assert !(t[i].isActive && t[j].isActive && t[i].pair == t[j].pair);
    }
  }

  /** All versions from 1 up to any key's version are there. */
  lemma {:induction false} VersionsGapless(t: Table, i: nat, v: nat)
    requires Consistent(t) && i < |t| && 1 <= v <= t[i].version
    ensures HasVersion(t, t[i].pair, v)
    decreases t[i].version
  {
    if v < t[i].version {
      assert HasPredecessor(t, t[i]);
      var j :| 0 <= j < |t| && t[j].pair == t[i].pair && t[j].version == t[i].version - 1;
      VersionsGapless(t, j, v);
    }
  }

  /** A new key conflicts exactly when some key of its pair is newer than the active one. */
  lemma ConflictIff(t: Table, row: KeyRow)
    requires Consistent(t) && row.version == ActiveVersion(t, row.pair) + 1
    ensures Conflicts(t, row) <==>
            exists i :: 0 <= i < |t| && t[i].pair == row.pair && t[i].version > ActiveVersion(t, row.pair)
  {
    if i :| 0 <= i < |t| && t[i].pair == row.pair && t[i].version > ActiveVersion(t, row.pair) {
      VersionsGapless(t, i, row.version);
      var j :| 0 <= j < |t| && t[j].pair == row.pair && t[j].version == row.version;
      assert SameKey(t[j], row);
    }
    if Conflicts(t, row) {
      var j :| 0 <= j < |t| && SameKey(t[j], row);
    }
  }

  // ---------------------------------------------------------------- one step

  ghost predicate SameKeys(t: Table, u: Table) {
    |u| == |t| && forall i :: 0 <= i < |t| ==> SameKey(u[i], t[i]) && u[i].id == t[i].id
  }

  /** `u` is `t` after updates that activate nothing. */
  ghost predicate Settled(t: Table, u: Table) {
    && SameKeys(t, u)
    && forall i :: 0 <= i < |t| ==> (u[i].isActive ==> t[i].isActive) && (u[i].isActive <==> u[i].status == Active)
  }

  lemma SettledConsistent(t: Table, u: Table)
    requires Consistent(t) && Settled(t, u)
    ensures Consistent(u)
  {
    forall i | 0 <= i < |u| ensures u[i].version >= 1 && HasPredecessor(u, u[i]) {
      assert SameKey(u[i], t[i]) && HasPredecessor(t, t[i]);
      if t[i].version > 1 {
        var j :| 0 <= j < |t| && t[j].pair == t[i].pair && t[j].version == t[i].version - 1;
        assert SameKey(u[j], t[j]);
      }
    }
    forall i, j | 0 <= i < j < |u|
      ensures !SameKey(u[i], u[j]) && !(u[i].isActive && u[j].isActive && u[i].pair == u[j].pair)
    {
      assert SameKey(u[i], t[i]) && SameKey(u[j], t[j]);
    }
  }

  lemma UpsertPredecessor(u: Table, row: KeyRow, i: nat)
    requires forall j :: 0 <= j < |u| ==> u[j].version >= 1 && HasPredecessor(u, u[j])
    requires row.version >= 1 && HasPredecessor(u, row) && i < |Upserted(u, row)|
    ensures Upserted(u, row)[i].version >= 1 && HasPredecessor(Upserted(u, row), Upserted(u, row)[i])
  {
    var e := Upserted(u, row);
    assert forall j :: 0 <= j < |u| ==> SameKey(e[j], u[j]);
    var r := if i < |u| then u[i] else row;
    assert SameKey(e[i], r) && HasPredecessor(u, r);
    if r.version > 1 {
      var j :| 0 <= j < |u| && u[j].pair == r.pair && u[j].version == r.version - 1;
      assert SameKey(e[j], u[j]);
    }
  }

  /** Adding or overwriting an active row of a pair that has none. */
  lemma UpsertConsistent(u: Table, row: KeyRow)
    requires Consistent(u) && forall i :: 0 <= i < |u| ==> !ActiveFor(u[i], row.pair)
    requires row.isActive && row.status == Active && row.version >= 1 && HasPredecessor(u, row)
    requires !row.pair.algorithm.EcdsaP256?
    ensures Consistent(Upserted(u, row))
  {
    var e := Upserted(u, row);
    forall i | 0 <= i < |e| ensures e[i].version >= 1 && HasPredecessor(e, e[i]) {
      UpsertPredecessor(u, row, i);
    }
    hide HasPredecessor;
    if Conflicts(u, row) {
      forall i, j | 0 <= i < j < |e|
        ensures !SameKey(e[i], e[j]) && !(e[i].isActive && e[j].isActive && e[i].pair == e[j].pair)
      {
        assert !SameKey(u[i], u[j]);
      }
    }
  }

  /** The active rows of `p`, and of no other pair, have been put aside. */
  ghost predicate Cleared(t: Table, u: Table, p: Pair) {
    && Settled(t, u)
    && forall i :: 0 <= i < |t| ==> if t[i].pair == p then !u[i].isActive else u[i].isActive == t[i].isActive
  }

  /** A new key comes right above the active one of its pair, which is put aside first. */
  ghost predicate Replaces(t: Table, u: Table, row: KeyRow) {
    && Cleared(t, u, row.pair)
    && row.isActive && row.status == Active && row.version == ActiveVersion(t, row.pair) + 1
    && !row.pair.algorithm.EcdsaP256?
  }

  lemma ReplaceConsistent(t: Table, u: Table, row: KeyRow)
    requires Consistent(t) && Replaces(t, u, row)
    ensures Consistent(Upserted(u, row))
  {
    SettledConsistent(t, u);
    if row.version > 1 {
      var i :| 0 <= i < |t| && t[i] == ActiveRow(t, row.pair).value;
      assert SameKey(u[i], t[i]);
      assert HasVersion(u, row.pair, row.version - 1);
    }
    assert forall i :: 0 <= i < |u| ==> SameKey(u[i], t[i]);
    UpsertConsistent(u, row);
  }

  lemma ActiveVersionKept(t: Table, u: Table, q: Pair)
    requires Consistent(t) && Consistent(u) && |t| <= |u|
    requires forall i :: 0 <= i < |t| ==> SameKey(u[i], t[i]) && (t[i].pair == q ==> u[i].isActive == t[i].isActive)
    requires forall i :: |t| <= i < |u| ==> u[i].pair != q
    ensures ActiveVersion(u, q) == ActiveVersion(t, q)
  {
    if ActiveRow(t, q).Some? {
      var i :| 0 <= i < |t| && t[i] == ActiveRow(t, q).value;
      assert SameKey(u[i], t[i]);
      ActiveRowIs(u, i);
    }
  }

  lemma ReplaceInserts(t: Table, u: Table, row: KeyRow)
    requires Current(t) && Replaces(t, u, row)
    ensures Upserted(u, row) == u + [row]
  {
    forall i | 0 <= i < |u| ensures !SameKey(u[i], row) {
      assert SameKey(u[i], t[i]) && t[i].version <= ActiveVersion(t, t[i].pair);
    }
  }

  lemma NewestAfterReplace(t: Table, u: Table, row: KeyRow, i: nat)
    requires Consistent(t) && Consistent(u + [row]) && Current(t) && Replaces(t, u, row) && i < |u|
    ensures u[i].version <= ActiveVersion(u + [row], u[i].pair)
  {
    var e := u + [row];
    assert SameKey(u[i], t[i]) && t[i].version <= ActiveVersion(t, t[i].pair);
    if u[i].pair == row.pair {
      ActiveRowIs(e, |u|);
    } else {
      assert forall j :: 0 <= j < |t| ==> SameKey(e[j], u[j]);
      ActiveVersionKept(t, e, u[i].pair);
    }
  }

  /** Where the newest key is the active one, a new key is inserted, never merged into an old row. */
  lemma ReplaceCurrent(t: Table, u: Table, row: KeyRow)
    requires Consistent(t) && Current(t) && Replaces(t, u, row)
    ensures Upserted(u, row) == u + [row] && Current(u + [row])
  {
    hide ActiveVersion;
    ReplaceInserts(t, u, row);
    ReplaceConsistent(t, u, row);
    var e := u + [row];
    forall i | 0 <= i < |e| ensures e[i].version <= ActiveVersion(e, e[i].pair) {
      if i < |u| {
        NewestAfterReplace(t, u, row, i);
      } else {
        ActiveRowIs(e, i);
        VersionOfActive(e, row.pair);
      }
    }
  }

  lemma VersionOfActive(t: Table, p: Pair)
    requires ActiveRow(t, p).Some?
    ensures ActiveVersion(t, p) == ActiveRow(t, p).value.version
  {
  }

  lemma UntouchedCurrent(t: Table, u: Table)
    requires Consistent(t) && Current(t) && Settled(t, u) && forall i :: 0 <= i < |t| ==> u[i].isActive == t[i].isActive
    ensures Current(u)
  {
    SettledConsistent(t, u);
    forall i | 0 <= i < |u| ensures u[i].version <= ActiveVersion(u, u[i].pair) {
      assert SameKey(u[i], t[i]) && t[i].version <= ActiveVersion(t, t[i].pair);
      ActiveVersionKept(t, u, u[i].pair);
    }
  }

  // ---------------------------------------------------------------- operations

  predicate MakesKey(t: Table, op: Op) {
    match op
    case Generate(p, _, _, _, saved) => saved && !p.algorithm.EcdsaP256?
    case Rotate(p, _, _, _) => ActiveRow(t, p).Some? && !p.algorithm.EcdsaP256?
    case Ensure(p, _, _, _) => ActiveRow(t, p).None? && !p.algorithm.EcdsaP256?
    case _ => false
  }

  /** The row an operation makes, and the table it is put into. */
  function MadeRow(t: Table, op: Op): KeyRow
    requires MakesKey(t, op)
  {
    match op
    case Generate(p, purpose, key, now, _) => NewRow(p, ActiveVersion(t, p) + 1, purpose, key, now)
    case Rotate(p, _, key, now) => NewRow(p, ActiveVersion(t, p) + 1, ActiveRow(t, p).value.purpose, key, now)
    case Ensure(p, purpose, key, now) => NewRow(p, 1, purpose, key, now)
  }

  function Base(t: Table, op: Op): Table {
    match op
    case Generate(p, _, _, _, _) =>
      if ActiveRow(t, p).Some? then Deactivated(t, p) else t
    case Rotate(p, reason, _, now) => if MakesKey(t, op) then Retired(t, p, RetiredStatus(reason), now) else t
    case Ensure(_, _, _, _) => t
    case Expire(now, ids) => WithExpired(t, now, ids)
    case Rewrap(updates, _) => WithRewrapped(t, updates)
  }

  lemma DoneIs(t: Table, op: Op)
    ensures Done(t, op) == if MakesKey(t, op) then Upserted(Base(t, op), MadeRow(t, op)) else Base(t, op)
  {
  }

  /** No failure between deactivating the old key and saving the new one. */
  predicate Completed(op: Op) {
    op.Generate? ==> op.saved
  }

  lemma BaseKeeps(t: Table, op: Op)
    requires Consistent(t)
    ensures Settled(t, Base(t, op))
  {
  }

  lemma BaseReplaces(t: Table, op: Op)
    requires Consistent(t) && MakesKey(t, op)
    ensures Cleared(t, Base(t, op), MadeRow(t, op).pair)
  {
    BaseKeeps(t, op);
    hide Consistent;
    hide Settled;
  }

  lemma BaseSettled(t: Table, op: Op)
    requires Consistent(t)
    ensures Settled(t, Base(t, op))
    ensures MakesKey(t, op) ==> Replaces(t, Base(t, op), MadeRow(t, op))
    ensures !MakesKey(t, op) && Completed(op) ==>
              forall i :: 0 <= i < |t| ==> Base(t, op)[i].isActive == t[i].isActive
  {
    hide Settled;
    hide Cleared;
    BaseKeeps(t, op);
    if MakesKey(t, op) {
      BaseReplaces(t, op);
    }
  }

  /** Every operation, failed ones included, keeps the table consistent. */
  lemma StepConsistent(t: Table, op: Op)
    requires Consistent(t)
    ensures Consistent(Done(t, op))
  {
    DoneIs(t, op);
    BaseSettled(t, op);
    if MakesKey(t, op) {
      ReplaceConsistent(t, Base(t, op), MadeRow(t, op));
    } else {
      SettledConsistent(t, Base(t, op));
    }
  }

  /** A completed operation keeps the newest key active and never takes the conflict branch. */
  lemma StepCurrent(t: Table, op: Op)
    requires Consistent(t) && Current(t) && Completed(op)
    ensures Current(Done(t, op))
    ensures MakesKey(t, op) ==> !Conflicts(Base(t, op), MadeRow(t, op)) && Done(t, op) == Base(t, op) + [MadeRow(t, op)]
    ensures !MakesKey(t, op) ==> Done(t, op) == Base(t, op)
  {
    hide Done;
    hide Base;
    DoneIs(t, op);
    BaseSettled(t, op);
    if MakesKey(t, op) {
      ReplaceCurrent(t, Base(t, op), MadeRow(t, op));
      assert |Upserted(Base(t, op), MadeRow(t, op))| == |Base(t, op)| + 1;
    } else {
      UntouchedCurrent(t, Base(t, op));
    }
  }

  // ---------------------------------------------------------------- what an operation leaves, row by row

  /** `j` indexes the new key in `u`: behind the rows of `t`, or in place of the one with its version. */
  ghost predicate NewKeyAt(
      t: Table, u: Table, j: nat, p: Pair, version: nat, purpose: Purpose, key: Material, now: nat)
  {
    && j < |u| && u[j].pair == p && u[j].version == version && u[j].purpose == purpose
    && u[j].secret == key.secret && u[j].publicKey == key.publicKey
    && u[j].status == Active && u[j].isActive && u[j].createdAt == now
    && (if j < |t| then |u| == |t| && t[j].pair == p && t[j].version == version && u[j].id == t[j].id
        else |u| == |t| + 1 && u[j].id == key.id &&
             forall k :: 0 <= k < |t| ==> t[k].pair != p || t[k].version != version)
  }

  /** Row `i` was the active key of its pair and is retired for `reason`; key `j` follows it. */
  ghost predicate RotatedTo(t: Table, u: Table, i: nat, j: nat, reason: Reason, key: Material, now: nat)
    requires i < |t|
  {
    && NewKeyAt(t, u, j, t[i].pair, t[i].version + 1, t[i].purpose, key, now)
    && |t| <= |u| && i != j && !u[i].isActive && u[i].createdAt == now
    && (u[i].status == Compromised <==> reason == CompromisedKey)
    && (u[i].status == Deprecated <==> reason == Scheduled || reason == Manual)
    && u[i] == t[i].(status := u[i].status, isActive := false, createdAt := now)
    && forall k :: 0 <= k < |t| && k != i && k != j ==> u[k] == t[k]
  }

  /** `i` indexes the active key of the pair, or is past the end when there is none. */
  ghost predicate ActiveAt(t: Table, p: Pair, i: nat) {
    if i < |t| then t[i].pair == p && t[i].isActive
    else forall k :: 0 <= k < |t| ==> t[k].pair != p || !t[k].isActive
  }

  lemma NoActive(t: Table, p: Pair)
    requires ActiveAt(t, p, |t|)
    ensures ActiveRow(t, p).None?
  {
  }

  lemma UpsertedAt(t: Table, row: KeyRow) returns (j: nat)
    requires forall a, b :: 0 <= a < b < |t| ==> !SameKey(t[a], t[b])
    ensures j < |Upserted(t, row)| && |t| <= |Upserted(t, row)|
    ensures if j < |t| then SameKey(t[j], row) && Upserted(t, row) == t[j := row.(id := t[j].id)]
            else Upserted(t, row) == t + [row] && forall k :: 0 <= k < |t| ==> !SameKey(t[k], row)
  {
    if i :| 0 <= i < |t| && SameKey(t[i], row) {
      j := i;
      forall k | 0 <= k < |t| && k != i ensures !SameKey(t[k], row) {
        assert k < i ==> !SameKey(t[k], t[i]);
        assert i < k ==> !SameKey(t[i], t[k]);
      }
      assert Upserted(t, row) == t[i := row.(id := t[i].id)];
    } else {
      j := |t|;
    }
  }

  lemma KeysDiffer(t: Table)
    requires Consistent(t)
    ensures forall a, b :: 0 <= a < b < |t| ==> !SameKey(t[a], t[b])
  {
  }

  lemma RotatesIff(t: Table, p: Pair, reason: Reason, key: Material, now: nat, i: nat)
    requires Consistent(t) && ActiveAt(t, p, i)
    ensures MakesKey(t, Rotate(p, reason, key, now)) <==> i < |t|
  {
    if i < |t| {
      ActiveRowIs(t, i);
      assert !t[i].pair.algorithm.EcdsaP256?;
    } else {
      NoActive(t, p);
    }
  }

  /** Putting a new key into a table that has the same keys as `t`. */
  lemma PutIn(t: Table, u: Table, p: Pair, version: nat, purpose: Purpose, key: Material, now: nat) returns (j: nat)
    requires SameKeys(t, u) && forall a, b :: 0 <= a < b < |t| ==> !SameKey(t[a], t[b])
    ensures var v := Upserted(u, NewRow(p, version, purpose, key, now));
            && |t| <= |v| && NewKeyAt(t, v, j, p, version, purpose, key, now)
            && (j < |t| ==> t[j].version == version)
            && forall k :: 0 <= k < |t| && k != j ==> v[k] == u[k]
  {
    forall a, b | 0 <= a < b < |u| ensures !SameKey(u[a], u[b]) {
      assert SameKey(u[a], t[a]) && SameKey(u[b], t[b]) && !SameKey(t[a], t[b]);
    }
    var row := NewRow(p, version, purpose, key, now);
    j := UpsertedAt(u, row);
    hide Upserted;
    forall k | 0 <= k < |t| && SameKey(t[k], row) ensures SameKey(u[k], row) {
    }
  }

  lemma OnlyActive(t: Table, i: nat)
    requires Consistent(t) && i < |t| && t[i].isActive
    ensures forall k :: 0 <= k < |t| && k != i ==> !ActiveFor(t[k], t[i].pair)
  {
    forall k | 0 <= k < |t| && k != i ensures !ActiveFor(t[k], t[i].pair) {
      assert k < i ==> !(t[k].isActive && t[i].isActive && t[k].pair == t[i].pair);
      assert i < k ==> !(t[i].isActive && t[k].isActive && t[i].pair == t[k].pair);
    }
  }

  lemma RetiredIs(t: Table, i: nat, status: Status, now: nat)
    requires Consistent(t) && i < |t| && t[i].isActive
    ensures var u := Retired(t, t[i].pair, status, now);
            && SameKeys(t, u) && u[i] == t[i].(status := status, isActive := false, createdAt := now)
            && forall k :: 0 <= k < |t| && k != i ==> u[k] == t[k]
  {
    OnlyActive(t, i);
    hide Consistent;
  }

  lemma RotateDone(t: Table, p: Pair, reason: Reason, key: Material, now: nat, r: KeyRow)
    requires ActiveRow(t, p) == Some(r) && p.algorithm != EcdsaP256
    ensures Done(t, Rotate(p, reason, key, now)) ==
            Upserted(Retired(t, p, if reason == CompromisedKey then Compromised else Deprecated, now),
                     NewRow(p, r.version + 1, r.purpose, key, now))
  {
    hide ActiveRow;
    hide Upserted;
    hide Retired;
  }

  lemma PutAfterRetired(t: Table, u: Table, i: nat, reason: Reason, key: Material, now: nat) returns (j: nat)
    requires SameKeys(t, u) && forall a, b :: 0 <= a < b < |t| ==> !SameKey(t[a], t[b])
    requires i < |t| && u[i] == t[i].(status := if reason == CompromisedKey then Compromised else Deprecated,
                                      isActive := false, createdAt := now)
    requires forall k :: 0 <= k < |t| && k != i ==> u[k] == t[k]
    ensures var v := Upserted(u, NewRow(t[i].pair, t[i].version + 1, t[i].purpose, key, now));
            RotatedTo(t, v, i, j, reason, key, now)
  {
    hide SameKeys;
    hide Upserted;
    hide NewKeyAt;
    j := PutIn(t, u, t[i].pair, t[i].version + 1, t[i].purpose, key, now);
  }

  /** A rotation retires the active key by its reason and puts the next version in, and touches no other row. */
  lemma RotationIs(t: Table, p: Pair, reason: Reason, key: Material, now: nat, i: nat) returns (j: nat)
    requires Consistent(t) && i < |t| && t[i].pair == p && t[i].isActive
    ensures RotatedTo(t, Done(t, Rotate(p, reason, key, now)), i, j, reason, key, now)
  {
    hide SameKeys;
    hide SameKey;
    hide Done;
    hide Retired;
    hide Upserted;
    hide RotatedTo;
    hide HasPredecessor;
    var status := if reason == CompromisedKey then Compromised else Deprecated;
    assert t[i].pair.algorithm != EcdsaP256;
    ActiveRowIs(t, i);
    RotateDone(t, p, reason, key, now, t[i]);
    RetiredIs(t, i, status, now);
    KeysDiffer(t);
    j := PutAfterRetired(t, Retired(t, p, status, now), i, reason, key, now);
  }

  /** The old key, if there is one, is revoked. */
  ghost predicate RevokedAt(t: Table, u: Table, i: nat) {
    |t| <= |u| && (i < |t| ==> u[i] == t[i].(status := Revoked, isActive := false))
  }

  lemma DeactivatedIs(t: Table, p: Pair, i: nat)
    requires Consistent(t) && ActiveAt(t, p, i)
    ensures var u := if i < |t| then Deactivated(t, p) else t;
            && |u| == |t| && SameKeys(t, u) && RevokedAt(t, u, i)
            && forall k :: 0 <= k < |t| && k != i ==> u[k] == t[k]
  {
    if i < |t| {
      OnlyActive(t, i);
    }
    hide Consistent;
  }

  lemma PutAfterRevoked(
      t: Table, u: Table, i: nat, p: Pair, version: nat, purpose: Purpose, key: Material, now: nat) returns (j: nat)
    requires SameKeys(t, u) && forall a, b :: 0 <= a < b < |t| ==> !SameKey(t[a], t[b])
    requires RevokedAt(t, u, i) && forall k :: 0 <= k < |t| && k != i ==> u[k] == t[k]
    requires i < |t| ==> t[i].version != version
    ensures var v := Upserted(u, NewRow(p, version, purpose, key, now));
            && RevokedAt(t, v, i) && (i < |t| ==> i != j) && NewKeyAt(t, v, j, p, version, purpose, key, now)
            && forall k :: 0 <= k < |t| && k != i && k != j ==> v[k] == t[k]
  {
    hide SameKeys;
    hide Upserted;
    hide NewKeyAt;
    j := PutIn(t, u, p, version, purpose, key, now);
  }

  lemma GenerateDone(t: Table, p: Pair, purpose: Purpose, key: Material, now: nat, saved: bool)
    ensures var r := ActiveRow(t, p);
            var u := if r.Some? then Deactivated(t, p) else t;
            Done(t, Generate(p, purpose, key, now, saved)) ==
            if saved && p.algorithm != EcdsaP256
            then Upserted(u, NewRow(p, if r.Some? then r.value.version + 1 else 1, purpose, key, now)) else u
  {
    hide ActiveRow;
    hide Upserted;
    hide Deactivated;
  }

  lemma GenerateDoneAt(t: Table, p: Pair, purpose: Purpose, key: Material, now: nat, saved: bool, i: nat)
    requires Consistent(t) && ActiveAt(t, p, i)
    ensures var u := if i < |t| then Deactivated(t, p) else t;
            Done(t, Generate(p, purpose, key, now, saved)) ==
            if saved && p.algorithm != EcdsaP256
            then Upserted(u, NewRow(p, if i < |t| then t[i].version + 1 else 1, purpose, key, now)) else u
  {
    hide Consistent;
    hide Done;
    hide Deactivated;
    hide Upserted;
    hide ActiveRow;
    GenerateDone(t, p, purpose, key, now, saved);
    if i < |t| {
      ActiveRowIs(t, i);
    } else {
      NoActive(t, p);
    }
  }

  /**
   Generation revokes the old key even when no new one can be made or saved. Otherwise the
   new key is the next version, or the first.
   */
  lemma GenerationIs(t: Table, p: Pair, purpose: Purpose, key: Material, now: nat, saved: bool, i: nat)
      returns (j: nat)
    requires Consistent(t) && ActiveAt(t, p, i)
    ensures var u := Done(t, Generate(p, purpose, key, now, saved));
            && RevokedAt(t, u, i)
            && (forall k :: 0 <= k < |t| && k != i && k != j ==> u[k] == t[k])
            && (saved && p.algorithm != EcdsaP256 ==>
                  && (i < |t| ==> i != j)
                  && NewKeyAt(t, u, j, p, if i < |t| then t[i].version + 1 else 1, purpose, key, now))
            && (!saved || p.algorithm == EcdsaP256 ==> |u| == |t| && j == |t|)
  {
    hide *;
    GenerateDoneAt(t, p, purpose, key, now, saved, i);
    DeactivatedIs(t, p, i);
    KeysDiffer(t);
    var u := if i < |t| then Deactivated(t, p) else t;
    if saved && p.algorithm != EcdsaP256 {
      j := PutAfterRevoked(t, u, i, p, if i < |t| then t[i].version + 1 else 1, purpose, key, now);
    } else {
      j := |t|;
    }
  }

  /** Bootstrap makes version 1 of a key that has no active version, and nothing otherwise. */
  lemma EnsuringIs(t: Table, p: Pair, purpose: Purpose, key: Material, now: nat) returns (j: nat)
    requires Consistent(t)
    ensures var u := Done(t, Ensure(p, purpose, key, now));
            && (ActiveAt(t, p, |t|) && p.algorithm != EcdsaP256 ==>
                  && |t| <= |u| && NewKeyAt(t, u, j, p, 1, purpose, key, now)
                  && forall k :: 0 <= k < |t| && k != j ==> u[k] == t[k])
            && (!ActiveAt(t, p, |t|) || p.algorithm == EcdsaP256 ==> u == t)
  {
    KeysDiffer(t);
    if ActiveAt(t, p, |t|) {
      NoActive(t, p);
    } else {
      var k :| 0 <= k < |t| && t[k].pair == p && t[k].isActive;
      assert ActiveFor(t[k], p);
    }
    hide Consistent;
    hide ActiveRow;
    hide Upserted;
    hide NewKeyAt;
    hide ActiveAt;
    j := PutIn(t, t, p, 1, purpose, key, now);
  }

  /** Expiry touches the chosen rows that were deprecated half an hour ago or earlier. */
  lemma ExpiryIs(t: Table, now: nat, ids: set<nat>, k: nat)
    requires k < |t|
    ensures var u := Done(t, Expire(now, ids));
            |u| == |t| && u[k] == if t[k].status == Deprecated && t[k].createdAt + 1800 <= now && t[k].id in ids
                                  then t[k].(status := Expired, isActive := false) else t[k]
  {
  }

  // ---------------------------------------------------------------- runs from an empty table

  /** In every run each pair has distinct gapless versions and at most one active key. */
  lemma {:induction false} RunConsistent(ops: seq<Op>)
    ensures Consistent(TableAfter(ops))
    decreases |ops|
  {
    if ops != [] {
      RunConsistent(ops[..|ops| - 1]);
      StepConsistent(TableAfter(ops[..|ops| - 1]), ops[|ops| - 1]);
    }
  }

  ghost predicate AllCompleted(ops: seq<Op>) {
    forall i :: 0 <= i < |ops| ==> Completed(ops[i])
  }

  /** Without a failure in between, the active key is always the newest of its pair. */
  lemma {:induction false} RunCurrent(ops: seq<Op>)
    requires AllCompleted(ops)
    ensures Current(TableAfter(ops))
    decreases |ops|
  {
    if ops != [] {
      var front := ops[..|ops| - 1];
      RunConsistent(front);
      RunCurrent(front);
      StepCurrent(TableAfter(front), ops[|ops| - 1]);
    }
  }

  /** Nor does any of its operations overwrite an existing version. */
  lemma NoOverwrite(ops: seq<Op>, k: nat)
    requires AllCompleted(ops) && k < |ops| && MakesKey(TableAfter(ops[..k]), ops[k])
    ensures var t := TableAfter(ops[..k]); !Conflicts(Base(t, ops[k]), MadeRow(t, ops[k]))
  {
    RunConsistent(ops[..k]);
    RunCurrent(ops[..k]);
    StepCurrent(TableAfter(ops[..k]), ops[k]);
  }

  /** One failed save is enough: the next key of the pair takes version 1 and overwrites it. */
  lemma FailedSaveThenOverwrite(p: Pair, purpose: Purpose, a: Material, b: Material, c: Material, now: nat)
    requires !p.algorithm.EcdsaP256?
    ensures var made, lost := Generate(p, purpose, a, now, true), Generate(p, purpose, b, now, false);
            var again := Generate(p, purpose, c, now, true);
            TableAfter([made, lost, again]) == [NewRow(p, 1, purpose, c.(id := a.id), now)]
  {
    var g1, g2 := Generate(p, purpose, a, now, true), Generate(p, purpose, b, now, false);
    var g3 := Generate(p, purpose, c, now, true);
    var ops := [g1, g2, g3];
    assert ops[..2] == [g1, g2] && [g1, g2][..1] == [g1] && [g1][..0] == [];
    var first := NewRow(p, 1, purpose, a, now);
    assert TableAfter([g1]) == [first];
    assert ActiveRow([first], p) == Some(first);
    var second := RevokedRow(first, p);
    assert TableAfter([g1, g2]) == Done([first], g2) == [second];
    var third := NewRow(p, 1, purpose, c, now);
    assert ActiveRow([second], p).None?;
    assert SameKey([second][0], third);
    assert Upserted([second], third) == [Overwritten(second, third)];
  }

  // ---------------------------------------------------------------- status only moves forward

  predicate Forward(s: Status, s': Status) {
    || s == s'
    || (s == Active && (s' == Deprecated || s' == Revoked || s' == Compromised))
    || (s == Deprecated && s' == Expired)
  }

  /** What one completed operation may do to a row that is already there. */
  ghost predicate RowMoves(r: KeyRow, r': KeyRow, op: Op) {
    && r'.id == r.id && SameKey(r', r) && Forward(r.status, r'.status)
    && (r.status == Active && r'.status == Deprecated ==> r'.createdAt == op.now)
    && (r.status == Deprecated && r'.status == Deprecated ==> r'.createdAt == r.createdAt)
    && (r.status == Deprecated && r'.status == Expired ==> r.createdAt + 1800 <= op.now)
  }

  lemma BaseMoves(t: Table, op: Op, i: nat)
    requires i < |t| && (t[i].isActive <==> t[i].status == Active)
    ensures |Base(t, op)| == |t| && RowMoves(t[i], Base(t, op)[i], op)
  {
  }

  lemma StepForward(t: Table, op: Op, i: nat)
    requires Consistent(t) && Current(t) && Completed(op) && i < |t|
    ensures i < |Done(t, op)| && RowMoves(t[i], Done(t, op)[i], op)
  {
    assert t[i].isActive <==> t[i].status == Active;
    hide *;
    StepCurrent(t, op);
    BaseMoves(t, op, i);
  }

  /** Along a completed run, a row keeps its id, pair and version, and its status never goes back. */
  lemma RunForward(ops: seq<Op>, m: nat, i: nat)
    requires AllCompleted(ops) && m < |ops| && i < |TableAfter(ops[..m])|
    ensures i < |TableAfter(ops[..m + 1])|
    ensures RowMoves(TableAfter(ops[..m])[i], TableAfter(ops[..m + 1])[i], ops[m])
  {
    hide Done;
    hide Consistent;
    hide Current;
    assert ops[..m + 1][..m] == ops[..m];
    RunConsistent(ops[..m]);
    RunCurrent(ops[..m]);
    StepForward(TableAfter(ops[..m]), ops[m], i);
  }

  lemma {:induction false} DeprecatedSince(ops: seq<Op>, k: nat, n: nat, i: nat)
    requires AllCompleted(ops) && k < n <= |ops| && i < |TableAfter(ops[..k])|
    requires TableAfter(ops[..k])[i].status == Active
    requires i < |TableAfter(ops[..k + 1])| && TableAfter(ops[..k + 1])[i].status == Deprecated
    ensures i < |TableAfter(ops[..n])|
    ensures TableAfter(ops[..n])[i].status == Deprecated ==> TableAfter(ops[..n])[i].createdAt == ops[k].now
    ensures TableAfter(ops[..n])[i].status == Deprecated || TableAfter(ops[..n])[i].status == Expired
    decreases n
  {
    hide TableAfter;
    if k < n - 1 {
      DeprecatedSince(ops, k, n - 1, i);
    }
    RunForward(ops, n - 1, i);
  }

  /** A deprecated key expires no sooner than half an hour after it was retired. */
  lemma GraceKept(ops: seq<Op>, k: nat, m: nat, i: nat)
    requires AllCompleted(ops) && k < m < |ops| && i < |TableAfter(ops[..k])|
    requires TableAfter(ops[..k])[i].status == Active
    requires i < |TableAfter(ops[..k + 1])| && TableAfter(ops[..k + 1])[i].status == Deprecated
    requires i < |TableAfter(ops[..m])| && TableAfter(ops[..m])[i].status == Deprecated
    requires i < |TableAfter(ops[..m + 1])| && TableAfter(ops[..m + 1])[i].status == Expired
    ensures ops[m].now >= ops[k].now + 1800
  {
    hide TableAfter;
    DeprecatedSince(ops, k, m, i);
    RunForward(ops, m, i);
  }
}
