/**
 `rewrap_keys` over the Postgres adapter, which lists keys newest first whatever their master
 version, stores ciphertexts only, and reads every master version back as 0.
 */
module PostgresRewrap {
  import opened Wrappers
  import opened Bytes
  import opened KeyTable
  import opened KeyCache

  // ---------------------------------------------------------------- one round

  /** Row positions in descending order of `created_at`; ties may fall either way. */
  predicate NewestFirst(t: Table, order: seq<nat>) {
    && |order| == |t|
    && (forall i :: 0 <= i < |order| ==> order[i] < |t|)
    && (forall i, j :: 0 <= i < j < |order| ==> order[i] != order[j])
    && (forall i, j :: 0 <= i < j < |order| ==> t[order[i]].createdAt >= t[order[j]].createdAt)
  }

  function Min(a: nat, b: nat): nat {
    if a < b then a else b
  }

  /** `get_keys_needing_rewrap` of the adapter. */
  function Listed(t: Table, order: seq<nat>, n: nat): (batch: seq<KeyRow>)
    requires NewestFirst(t, order)
    ensures |batch| == Min(n, |t|)
  {
    seq(Min(n, |t|), i requires 0 <= i < Min(n, |t|) => t[order[i]])
  }

  predicate AllOpen(c: Crypto, rows: seq<KeyRow>) {
    forall i :: 0 <= i < |rows| ==> Opened(c, rows[i].secret).Some?
  }

  /** A ciphertext as the adapter stores it and reads it back. */
  function Stored(s: Sealed): Sealed {
    Sealed(s.ciphertext, 0)
  }

  function Updates(c: Crypto, batch: seq<KeyRow>, nonce: nat): map<nat, Sealed>
    requires AllOpen(c, batch)
  {
    if batch == [] then map[]
    else
      var k := |batch| - 1;
      Updates(c, batch[..k], nonce)[batch[k].id := Stored(Wrapped(c, Opened(c, batch[k].secret).value, nonce + k))]
  }

  /** Where the loop stands: ended well, ended in an error of unwrapping or storing, or still at it. */
  datatype Progress =
    | Finished(rows: Table, total: nat)
    | Failed(rows: Table, total: nat)
    | Running(rows: Table, total: nat)

  /** What the database does in a turn: how it orders the rows, and whether it commits the batch or rolls it back. */
  datatype Turn = Turn(order: seq<nat>, commits: bool)

  function Round(c: Crypto, t: Table, turn: Turn, n: nat, total: nat): Progress
    requires NewestFirst(t, turn.order)
  {
    var batch := Listed(t, turn.order, n);
    if batch == [] then Finished(t, total)
    else if !AllOpen(c, batch) || !turn.commits then Failed(t, total)
    else Running(WithRewrapped(t, Updates(c, batch, total)), total + |batch|)
  }

  // ---------------------------------------------------------------- any number of rounds

  type Turns = nat -> Turn

  function TurnOf(turns: Turns, k: nat): Turn {
    turns(k)
  }

  /** Rewrapping changes no time, so what is newest first stays so. */
  ghost predicate SameTimes(t: Table, u: Table) {
    |u| == |t| && forall i :: 0 <= i < |t| ==> u[i].createdAt == t[i].createdAt
  }

  ghost predicate OrdersFor(t: Table, turns: Turns) {
    forall k: nat :: NewestFirst(t, TurnOf(turns, k).order)
  }

  lemma SameOrder(t: Table, u: Table, order: seq<nat>)
    requires NewestFirst(t, order) && SameTimes(t, u)
    ensures NewestFirst(u, order)
  {
  }

  /** The first `rounds` rounds. */
  ghost function Loop(c: Crypto, turns: Turns, n: nat, t: Table, rounds: nat): (r: Progress)
    requires OrdersFor(t, turns)
    ensures SameTimes(t, r.rows)
  {
    if rounds == 0 then Running(t, 0)
    else
      var before := Loop(c, turns, n, t, rounds - 1);
      if !before.Running? then before
      else
        SameOrder(t, before.rows, TurnOf(turns, rounds - 1).order);
        Round(c, before.rows, TurnOf(turns, rounds - 1), n, before.total)
  }

  lemma {:induction false} RoundIs(c: Crypto, t: Table, turn: Turn, n: nat, total: nat)
    requires NewestFirst(t, turn.order)
    ensures var r := Round(c, t, turn, n, total);
            (r.Finished? <==> t == [] || n == 0) && (r.Running? ==> r.total == total + Min(n, |t|))
  {
    hide NewestFirst;
  }

  /** A loop that has ended has ended. */
  lemma {:induction false} LoopStays(c: Crypto, turns: Turns, n: nat, t: Table, k: nat, rounds: nat)
    requires OrdersFor(t, turns) && k <= rounds && !Loop(c, turns, n, t, k).Running?
    ensures Loop(c, turns, n, t, rounds) == Loop(c, turns, n, t, k)
    decreases rounds
  {
    hide Round;
    if k < rounds {
      LoopStays(c, turns, n, t, k, rounds - 1);
    }
  }

  /** However many rounds: success exactly for an empty table or a batch size of 0. */
  lemma {:induction false} SucceedsIff(c: Crypto, turns: Turns, n: nat, t: Table, rounds: nat)
    requires OrdersFor(t, turns) && rounds >= 1
    ensures Loop(c, turns, n, t, rounds).Finished? <==> t == [] || n == 0
  {
    hide Round;
    hide NewestFirst;
    if rounds > 1 {
      SucceedsIff(c, turns, n, t, rounds - 1);
    }
    var before := Loop(c, turns, n, t, rounds - 1);
    SameOrder(t, before.rows, TurnOf(turns, rounds - 1).order);
    RoundIs(c, before.rows, TurnOf(turns, rounds - 1), n, before.total);
  }

  /** While it runs, every round counts a full batch again. */
  lemma {:induction false} CountsAgain(c: Crypto, turns: Turns, n: nat, t: Table, rounds: nat)
    requires OrdersFor(t, turns)
    ensures var r := Loop(c, turns, n, t, rounds); r.Running? ==> r.total == rounds * Min(n, |t|)
  {
    hide Round;
    hide NewestFirst;
    if rounds > 0 {
      CountsAgain(c, turns, n, t, rounds - 1);
      var before := Loop(c, turns, n, t, rounds - 1);
      SameOrder(t, before.rows, TurnOf(turns, rounds - 1).order);
      RoundIs(c, before.rows, TurnOf(turns, rounds - 1), n, before.total);
      assert rounds * Min(n, |t|) == (rounds - 1) * Min(n, |t|) + Min(n, |t|);
    }
  }

  /** Unwrapping looks at the ciphertext only. */
  ghost predicate VersionBlind(c: Crypto) {
    forall s :: Opened(c, Stored(s)) == Opened(c, s)
  }

  lemma {:induction false} UpdatesOpen(c: Crypto, batch: seq<KeyRow>, nonce: nat, id: nat)
    requires Sound(c) && VersionBlind(c) && AllOpen(c, batch) && id in Updates(c, batch, nonce)
    ensures Opened(c, Updates(c, batch, nonce)[id]).Some?
    decreases |batch|
  {
    var k := |batch| - 1;
    if id != batch[k].id {
      UpdatesOpen(c, batch[..k], nonce, id);
    } else {
      var plain := Opened(c, batch[k].secret).value;
      assert Opened(c, Stored(Wrapped(c, plain, nonce + k))) == Some(plain);
    }
  }

  lemma {:induction false} RoundRuns(c: Crypto, t: Table, turn: Turn, n: nat, total: nat)
    requires Sound(c) && VersionBlind(c) && NewestFirst(t, turn.order) && turn.commits
    requires AllOpen(c, t) && t != [] && n > 0
    ensures var r := Round(c, t, turn, n, total); r.Running? && AllOpen(c, r.rows)
  {
    var batch := Listed(t, turn.order, n);
    forall i | 0 <= i < |batch| ensures Opened(c, batch[i].secret).Some? {
      assert batch[i] == t[turn.order[i]];
    }
    var updates := Updates(c, batch, total);
    forall i | 0 <= i < |t| ensures Opened(c, RewrappedRow(t[i], updates).secret).Some? {
      if t[i].id in updates {
        UpdatesOpen(c, batch, total, t[i].id);
      }
    }
  }

  /** The update of the k-th row of a batch, ids being distinct. */
  lemma {:induction false} UpdateAt(c: Crypto, batch: seq<KeyRow>, nonce: nat, k: nat)
    requires AllOpen(c, batch) && k < |batch| && forall i, j :: 0 <= i < j < |batch| ==> batch[i].id != batch[j].id
    ensures batch[k].id in Updates(c, batch, nonce)
    ensures Updates(c, batch, nonce)[batch[k].id] ==
            Sealed(Wrapped(c, Opened(c, batch[k].secret).value, nonce + k).ciphertext, 0)
    decreases |batch|
  {
    if k < |batch| - 1 {
      UpdateAt(c, batch[..|batch| - 1], nonce, k);
    }
  }

  lemma {:induction false} UpdatesAreBatch(c: Crypto, batch: seq<KeyRow>, nonce: nat, id: nat)
    requires AllOpen(c, batch) && id in Updates(c, batch, nonce)
    ensures exists k :: 0 <= k < |batch| && batch[k].id == id
    decreases |batch|
  {
    var n := |batch| - 1;
    if id == batch[n].id {
      assert batch[n].id == id;
    } else {
      UpdatesAreBatch(c, batch[..n], nonce, id);
      var k :| 0 <= k < n && batch[..n][k].id == id;
      assert batch[k].id == id;
    }
  }

  /** Some key among the first `n` in the order cannot be unwrapped. */
  ghost predicate SomeClosed(c: Crypto, t: Table, order: seq<nat>, n: nat)
    requires NewestFirst(t, order)
  {
    exists i :: 0 <= i < n && i < |t| && Opened(c, t[order[i]].secret).None?
  }

  /**
   A round that goes on has wrapped the first `n` keys in the order again, whatever their master
   version, and left the others; one that fails or finds nothing leaves the table.
   */
  lemma {:induction false} RoundRewraps(c: Crypto, t: Table, turn: Turn, n: nat, total: nat, k: nat)
    requires NewestFirst(t, turn.order) && k < |t|
    requires forall i, j :: 0 <= i < j < |t| ==> t[i].id != t[j].id
    ensures var r, was := Round(c, t, turn, n, total), t[turn.order[k]];
            && |r.rows| == |t| && (!r.Running? ==> r.rows == t)
            && (r.Failed? <==> n > 0 && (!turn.commits || SomeClosed(c, t, turn.order, n)))
            && (r.Running? && k >= n ==> r.rows[turn.order[k]] == was)
            && (r.Running? && k < n ==>
                  && Opened(c, was.secret).Some?
                  && r.rows[turn.order[k]] ==
                     was.(secret := Sealed(Wrapped(c, Opened(c, was.secret).value, total + k).ciphertext, 0)))
  {
    var batch := Listed(t, turn.order, n);
    assert forall i :: 0 <= i < |batch| ==> batch[i] == t[turn.order[i]];
    forall i, j | 0 <= i < j < |batch| ensures batch[i].id != batch[j].id {
      assert turn.order[i] != turn.order[j];
    }
    if AllOpen(c, batch) {
      var updates := Updates(c, batch, total);
      if k < n {
        UpdateAt(c, batch, total, k);
      } else {
        forall i | 0 <= i < |batch| ensures batch[i].id != t[turn.order[k]].id {
          assert turn.order[i] != turn.order[k];
        }
        if t[turn.order[k]].id in updates {
          UpdatesAreBatch(c, batch, total, t[turn.order[k]].id);
        }
      }
    }
    hide Updates;
  }

  /** With keys that unwrap, batches that commit, a non-empty table and a positive batch size the loop never ends. */
  lemma {:induction false} NeverEnds(c: Crypto, turns: Turns, n: nat, t: Table, rounds: nat)
    requires Sound(c) && VersionBlind(c) && OrdersFor(t, turns) && AllOpen(c, t) && t != [] && n > 0
    requires forall k: nat :: TurnOf(turns, k).commits
    ensures var r := Loop(c, turns, n, t, rounds);
            r.Running? && r.total == rounds * Min(n, |t|) && AllOpen(c, r.rows)
  {
    if rounds > 0 {
      NeverEnds(c, turns, n, t, rounds - 1);
      var before := Loop(c, turns, n, t, rounds - 1);
      SameOrder(t, before.rows, TurnOf(turns, rounds - 1).order);
      RoundRuns(c, before.rows, TurnOf(turns, rounds - 1), n, before.total);
      CountsAgain(c, turns, n, t, rounds);
    }
  }

  lemma OneKeyTable(p: Pair, purpose: Purpose, key: Material, now: nat)
    requires !p.algorithm.EcdsaP256?
    ensures TableAfter([Generate(p, purpose, key, now, true)]) == [NewRow(p, 1, purpose, key, now)]
  {
    var g := Generate(p, purpose, key, now, true);
    assert [g][..0] == [] && TableAfter([]) == [];
    assert TableAfter([g]) == [] + [NewRow(p, 1, purpose, key, now)];
  }

  function FirstRow(k: nat): Turn {
    Turn([0], true)
  }

  lemma OneRowOrders(row: KeyRow)
    ensures OrdersFor([row], FirstRow) && forall k: nat :: TurnOf(FirstRow, k).commits
  {
    forall k: nat ensures NewestFirst([row], TurnOf(FirstRow, k).order) && TurnOf(FirstRow, k).commits {
      assert TurnOf(FirstRow, k) == Turn([0], true);
    }
  }

  lemma {:induction false} StoredOpens(c: Crypto, plain: bytes)
    requires Sound(c) && VersionBlind(c)
    ensures Opened(c, Stored(Wrapped(c, plain, 0))) == Some(plain)
  {
  }

  lemma {:induction false} OneRowForever(c: Crypto, row: KeyRow, rounds: nat)
    requires Sound(c) && VersionBlind(c) && Opened(c, row.secret).Some?
    ensures OrdersFor([row], FirstRow)
    ensures var r := Loop(c, FirstRow, 10, [row], rounds); r.Running? && r.total == rounds
  {
    hide Sound;
    hide VersionBlind;
    hide OrdersFor;
    hide Loop;
    OneRowOrders(row);
    NeverEnds(c, FirstRow, 10, [row], rounds);
  }

  /** One key made by `generate_key_pair`, in batches of ten: after any number of rounds, counted as often. */
  lemma {:induction false} OneKeyForever(
      c: Crypto, p: Pair, purpose: Purpose, id: nat, plain: bytes, publicKey: string, now: nat, rounds: nat)
    requires Sound(c) && VersionBlind(c) && !p.algorithm.EcdsaP256?
    ensures var key := Material(id, Stored(Wrapped(c, plain, 0)), publicKey);
            var t := TableAfter([Generate(p, purpose, key, now, true)]);
            OrdersFor(t, FirstRow) && var r := Loop(c, FirstRow, 10, t, rounds); r.Running? && r.total == rounds
  {
    hide Sound;
    hide VersionBlind;
    hide TableAfter;
    hide OrdersFor;
    hide Loop;
    hide NewestFirst;
    var key := Material(id, Stored(Wrapped(c, plain, 0)), publicKey);
    OneKeyTable(p, purpose, key, now);
    StoredOpens(c, plain);
    OneRowForever(c, NewRow(p, 1, purpose, key, now), rounds);
  }
}
