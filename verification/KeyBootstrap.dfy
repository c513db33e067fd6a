/**
 Key bootstrap from the ACL (`bootstrap_keys`). The code looks keys up in a map it reads from
 the table once and keeps by hand; the lemmas say how far that map and the table agree.
 */
module KeyBootstrap {
  import opened Wrappers
  import opened KeyTable
  import opened KeyLifecycle
  import opened KeyCache

  datatype Rule = Rule(p: Pair, preload: bool)

  /**
   What the run gets from outside: the n-th key made and when the database stores it, and the
   pairs whose key cannot be generated, wrapped or saved.
   */
  datatype Supply = Supply(keys: nat -> Material, savedAt: nat -> nat, broken: set<Pair>)

  function Supplied(supply: Supply, n: nat): Material {
    supply.keys(n)
  }

  function SavedAt(supply: Supply, n: nat): nat {
    supply.savedAt(n)
  }

  /** Nothing comes of making this pair's key. */
  predicate CannotMake(supply: Supply, p: Pair) {
    p.algorithm.EcdsaP256? || p in supply.broken
  }

  function PurposeFor(a: Algorithm): Purpose {
    match a
    case Ed25519 => Signing
    case HmacSha256 => Authentication
    case _ => Encryption
  }

  /** A key as the local map holds it, times left aside. */
  datatype Entity = Entity(id: nat, version: nat, secret: Sealed, publicKey: string, purpose: Purpose)

  function EntityOf(r: KeyRow): Entity {
    Entity(r.id, r.version, r.secret, r.publicKey, r.purpose)
  }

  type KeyMap = map<Pair, Entity>

  /** Table and cache, the local map, how many keys were made, and whether no rule has failed. */
  datatype Boot = Boot(st: State, keyMap: KeyMap, made: nat, ok: bool)

  function MadeKey(supply: Supply, b: Boot, p: Pair): KeyRow {
    NewRow(p, 1, PurposeFor(p.algorithm), Supplied(supply, b.made), SavedAt(supply, b.made))
  }

  /** The key of the rule's pair: the map's, or a new one that is saved and put into the map. */
  function WithKey(supply: Supply, b: Boot, p: Pair): Boot {
    if p in b.keyMap then b
    else
      var row := MadeKey(supply, b, p);
      Boot(b.st.(rows := Upserted(b.st.rows, row)), b.keyMap[p := EntityOf(row)], b.made + 1, b.ok)
  }

  /** A preloaded pair's key is unwrapped into the cache. */
  function WithPreload(c: Crypto, b: Boot, p: Pair): Boot
    requires p in b.keyMap
  {
    match Opened(c, b.keyMap[p].secret)
    case None => b.(ok := false)
    case Some(plain) => b.(st := b.st.(cache := b.st.cache[p := Cached(b.keyMap[p].version, plain)]))
  }

  function AfterRule(c: Crypto, supply: Supply, b: Boot, rule: Rule): Boot {
    if !b.ok then b
    else if rule.p !in b.keyMap && CannotMake(supply, rule.p) then b.(ok := false)
    else if rule.preload then WithPreload(c, WithKey(supply, b, rule.p), rule.p)
    else WithKey(supply, b, rule.p)
  }

  function AfterRules(c: Crypto, supply: Supply, b: Boot, rules: seq<Rule>): Boot {
    if rules == [] then b
    else AfterRule(c, supply, AfterRules(c, supply, b, rules[..|rules| - 1]), rules[|rules| - 1])
  }

  function Flat(services: seq<seq<Rule>>): seq<Rule> {
    if services == [] then [] else Flat(services[..|services| - 1]) + services[|services| - 1]
  }

  // ---------------------------------------------------------------- what making a key does to the table

  /** The pair has rows and none of them is active. */
  ghost predicate Orphaned(t: Table, p: Pair) {
    ActiveRow(t, p).None? && exists i :: 0 <= i < |t| && t[i].pair == p
  }

  /** A row that was put aside and is active again, with a new key under its old id. */
  ghost predicate Revived(r: KeyRow, s: KeyRow) {
    !r.isActive && s.isActive && SameKey(s, r) && s.id == r.id
  }

  /** `u` is `t` with some rows revived and active rows appended. */
  ghost predicate Grown(t: Table, u: Table) {
    && |t| <= |u|
    && (forall i :: 0 <= i < |t| ==> u[i] == t[i] || Revived(t[i], u[i]))
    && (forall i :: |t| <= i < |u| ==> u[i].isActive)
  }

  lemma GrownTwice(t: Table, u: Table, v: Table)
    requires Grown(t, u) && Grown(u, v)
    ensures Grown(t, v) && (t <= v <==> t <= u && u <= v)
  {
    forall i | 0 <= i < |t| ensures v[i] == t[i] || Revived(t[i], v[i]) {
      assert u[i] == t[i] || Revived(t[i], u[i]);
      assert v[i] == u[i] || Revived(u[i], v[i]);
    }
    forall i | |t| <= i < |v| ensures v[i].isActive {
      assert i < |u| ==> v[i] == u[i] || Revived(u[i], v[i]);
    }
    if t <= v {
      forall i | 0 <= i < |u| ensures v[i] == u[i] {
        assert v[i] == u[i] || Revived(u[i], v[i]);
      }
      assert u == v[..|u|] && t == v[..|t|] && t == u[..|t|];
    }
  }

  /** A first key conflicts exactly with an orphaned pair's version 1. */
  lemma OrphanConflicts(t: Table, row: KeyRow)
    requires Consistent(t) && ActiveRow(t, row.pair).None? && row.version == 1
    ensures Conflicts(t, row) <==> Orphaned(t, row.pair)
  {
    ConflictIff(t, row);
    assert forall i :: 0 <= i < |t| ==> t[i].version >= 1;
  }

  lemma UpsertGrows(t: Table, row: KeyRow)
    requires Consistent(t) && ActiveRow(t, row.pair).None? && row.isActive && row.version == 1
    ensures Grown(t, Upserted(t, row)) && (t <= Upserted(t, row) <==> !Orphaned(t, row.pair))
  {
    OrphanConflicts(t, row);
    hide Orphaned;
    if Conflicts(t, row) {
      var u := Upserted(t, row);
      var i :| 0 <= i < |t| && SameKey(t[i], row);
      assert u[i] == row.(id := t[i].id) && !ActiveFor(t[i], row.pair);
    }
  }

  lemma UpsertedIsActive(t: Table, row: KeyRow)
    requires ActiveRow(t, row.pair).None? && row.isActive && Consistent(Upserted(t, row))
    ensures var r := ActiveRow(Upserted(t, row), row.pair);
            && r.Some? && r.value == row.(id := r.value.id)
            && (!Conflicts(t, row) ==> r.value == row)
            && (Conflicts(t, row) ==> exists i :: 0 <= i < |t| && t[i].pair == row.pair && t[i].id == r.value.id)
  {
    var u := Upserted(t, row);
    if Conflicts(t, row) {
      var i :| 0 <= i < |t| && SameKey(t[i], row);
      assert u[i] == Overwritten(t[i], row);
      ActiveRowIs(u, i);
    } else {
      assert u[|t|] == row;
      ActiveRowIs(u, |t|);
    }
  }

  // ---------------------------------------------------------------- one rule

  /** The map has exactly the pairs with an active key, and that key, but for the row id. */
  ghost predicate MapsKeys(m: KeyMap, t: Table) {
    forall p ::
      && (p in m <==> ActiveRow(t, p).Some?)
      && (p in m ==> m[p] == EntityOf(ActiveRow(t, p).value).(id := m[p].id))
  }

  /** The map is the table's active set. */
  ghost predicate MapsActive(m: KeyMap, t: Table) {
    forall p :: (p in m <==> ActiveRow(t, p).Some?) && (p in m ==> m[p] == EntityOf(ActiveRow(t, p).value))
  }

  ghost predicate Sane(c: Crypto, b: Boot) {
    Consistent(b.st.rows) && Coherent(c, b.st) && MapsKeys(b.keyMap, b.st.rows)
  }

  /** Rows of other pairs are the same rows. */
  ghost predicate OthersSame(t: Table, u: Table, p: Pair) {
    forall q :: q != p ==> ActiveRow(u, q) == ActiveRow(t, q) && (Orphaned(u, q) <==> Orphaned(t, q))
  }

  lemma UpsertOthers(t: Table, row: KeyRow)
    requires Consistent(t) && ActiveRow(t, row.pair).None? && row.version == 1 && row.isActive
    ensures OthersSame(t, Upserted(t, row), row.pair)
  {
    var u := Upserted(t, row);
    forall q | q != row.pair
      ensures ActiveRow(u, q) == ActiveRow(t, q) && (Orphaned(u, q) <==> Orphaned(t, q))
    {
      ActiveRowSame(t, u, q);
      if i :| 0 <= i < |t| && t[i].pair == q {
        assert u[i] == t[i];
      }
      if i :| 0 <= i < |u| && u[i].pair == q {
        assert i < |t| && t[i].pair == q;
      }
    }
  }

  /** Making the key of a pair that has none. */
  lemma NewKeyFacts(t: Table, row: KeyRow)
    requires Consistent(t) && ActiveRow(t, row.pair).None? && !row.pair.algorithm.EcdsaP256?
    requires row.version == 1 && row.isActive && row.status == Active
    ensures var u := Upserted(t, row);
            && Consistent(u) && Grown(t, u) && (t <= u <==> !Orphaned(t, row.pair))
            && OthersSame(t, u, row.pair) && !Orphaned(u, row.pair)
            && ActiveRow(u, row.pair).Some? && row == ActiveRow(u, row.pair).value.(id := row.id)
            && (!Orphaned(t, row.pair) ==> ActiveRow(u, row.pair).value == row)
            && (Orphaned(t, row.pair) ==>
                  exists i :: 0 <= i < |t| && t[i].pair == row.pair && t[i].id == ActiveRow(u, row.pair).value.id)
  {
    UpsertConsistent(t, row);
    UpsertGrows(t, row);
    OrphanConflicts(t, row);
    UpsertedIsActive(t, row);
    UpsertOthers(t, row);
  }

  /** No new key takes the id of a row that is not active. */
  ghost predicate FreshIds(supply: Supply, t: Table) {
    forall n: nat, i :: 0 <= i < |t| && !t[i].isActive ==> Supplied(supply, n).id != t[i].id
  }

  /** Active keys, cached keys and mapped keys stay what they were. */
  ghost predicate Extends(b: Boot, e: Boot) {
    && Grown(b.st.rows, e.st.rows) && b.made <= e.made
    && (e.made == b.made ==> e.st.rows == b.st.rows)
    && ActiveKept(b.st.rows, e.st.rows)
    && (forall p :: p in b.st.cache ==> p in e.st.cache && e.st.cache[p] == b.st.cache[p])
    && (forall p :: p in b.keyMap ==> p in e.keyMap && e.keyMap[p] == b.keyMap[p])
  }

  /** The rule's pair has an active key, unwrapped in the cache if it is preloaded. */
  ghost predicate Served(c: Crypto, b: Boot, rule: Rule) {
    && ActiveRow(b.st.rows, rule.p).Some?
    && (rule.preload ==> rule.p in b.st.cache && FromTable(c, b.st.rows, rule.p) == Ok(b.st.cache[rule.p]))
  }

  ghost predicate ActiveKept(t: Table, u: Table) {
    forall p :: ActiveRow(t, p).Some? ==> ActiveRow(u, p) == ActiveRow(t, p)
  }

  lemma OthersActiveKept(t: Table, u: Table, p: Pair)
    requires OthersSame(t, u, p) && ActiveRow(t, p).None?
    ensures ActiveKept(t, u)
  {
    hide ActiveRow;
    hide Orphaned;
  }

  lemma {:induction false} ActiveKeptCoherent(c: Crypto, st: State, u: Table)
    requires Coherent(c, st) && ActiveKept(st.rows, u)
    ensures Coherent(c, st.(rows := u))
  {
    hide ActiveRow;
  }

  lemma MapsWithKey(m: KeyMap, t: Table, u: Table, row: KeyRow)
    requires MapsKeys(m, t) && OthersSame(t, u, row.pair)
    requires ActiveRow(u, row.pair).Some? && row == ActiveRow(u, row.pair).value.(id := row.id)
    ensures MapsKeys(m[row.pair := EntityOf(row)], u)
  {
    hide ActiveRow;
    hide Orphaned;
  }

  lemma {:induction false} KeyFacts(c: Crypto, supply: Supply, b: Boot, p: Pair)
    requires Sane(c, b) && (p in b.keyMap || !CannotMake(supply, p))
    ensures var e := WithKey(supply, b, p);
            && Sane(c, e) && Extends(b, e) && p in e.keyMap
            && OthersSame(b.st.rows, e.st.rows, p) && !Orphaned(e.st.rows, p)
  {
    hide Consistent;
    hide Upserted;
    hide ActiveRow;
    hide Coherent;
    if p !in b.keyMap {
      var t, row := b.st.rows, MadeKey(supply, b, p);
      assert ActiveRow(t, p).None?;
      NewKeyFacts(t, row);
      MapsWithKey(b.keyMap, t, Upserted(t, row), row);
      OthersActiveKept(t, Upserted(t, row), p);
      ActiveKeptCoherent(c, b.st, Upserted(t, row));
      hide OthersSame;
      hide Orphaned;
      hide Grown;
      hide MapsKeys;
    }
  }

  lemma {:induction false} PreloadFacts(c: Crypto, b: Boot, p: Pair)
    requires Sane(c, b) && p in b.keyMap
    ensures var e := WithPreload(c, b, p);
            && Sane(c, e) && Extends(b, e) && e.st.rows == b.st.rows && e.keyMap == b.keyMap
            && (e.ok ==> b.ok && Served(c, e, Rule(p, true)))
  {
    hide Consistent;
    hide ActiveRow;
  }

  lemma ExtendsTwice(b: Boot, m: Boot, e: Boot)
    requires Extends(b, m) && Extends(m, e)
    ensures Extends(b, e)
  {
    GrownTwice(b.st.rows, m.st.rows, e.st.rows);
    hide Grown;
    hide ActiveRow;
  }

  lemma {:induction false} RuleFacts(c: Crypto, supply: Supply, b: Boot, rule: Rule)
    requires Sane(c, b)
    ensures var e := AfterRule(c, supply, b, rule);
            Sane(c, e) && Extends(b, e) && (e.ok ==> b.ok && Served(c, e, rule))
  {
    hide Sane;
    var p := rule.p;
    assert MapsKeys(b.keyMap, b.st.rows) by { SaneMaps(c, b); }
    if b.ok && (p in b.keyMap || !CannotMake(supply, p)) {
      var m := WithKey(supply, b, p);
      KeyFacts(c, supply, b, p);
      SaneMaps(c, m);
      hide WithKey;
      if rule.preload {
        PreloadFacts(c, m, p);
        ExtendsTwice(b, m, WithPreload(c, m, p));
        hide WithPreload;
        hide Extends;
        assert Rule(p, true) == rule;
      } else {
        hide Extends;
        assert ActiveRow(m.st.rows, p).Some?;
      }
    } else {
      SameButFailed(c, b);
    }
  }

  lemma {:induction false} SameButFailed(c: Crypto, b: Boot)
    requires Sane(c, b)
    ensures Sane(c, b.(ok := false)) && Extends(b, b.(ok := false)) && Extends(b, b)
  {
  }

  lemma {:induction false} SaneMaps(c: Crypto, b: Boot)
    requires Sane(c, b)
    ensures MapsKeys(b.keyMap, b.st.rows)
  {
  }

  lemma {:induction false} ExtendsServed(c: Crypto, b: Boot, e: Boot, rule: Rule)
    requires Extends(b, e) && Served(c, b, rule)
    ensures Served(c, e, rule)
  {
    hide Grown;
    hide ActiveRow;
  }

  lemma {:induction false} RulesFacts(c: Crypto, supply: Supply, b: Boot, rules: seq<Rule>)
    requires Sane(c, b)
    ensures var e := AfterRules(c, supply, b, rules);
            && Sane(c, e) && Extends(b, e)
            && (e.ok ==> b.ok && forall i :: 0 <= i < |rules| ==> Served(c, e, rules[i]))
    decreases |rules|
  {
    hide AfterRule;
    hide Sane;
    hide Served;
    if rules != [] {
      var n := |rules| - 1;
      var m := AfterRules(c, supply, b, rules[..n]);
      var e := AfterRule(c, supply, m, rules[n]);
      RulesFacts(c, supply, b, rules[..n]);
      RuleFacts(c, supply, m, rules[n]);
      ExtendsTwice(b, m, e);
      if e.ok {
        forall i | 0 <= i < n ensures Served(c, e, rules[i]) {
          assert Served(c, m, rules[..n][i]);
          ExtendsServed(c, m, e, rules[i]);
        }
      }
      hide Extends;
    }
  }

  /** The state `bootstrap_keys` starts from: the map is read from the table. */
  ghost predicate Starts(c: Crypto, b: Boot) {
    Consistent(b.st.rows) && Coherent(c, b.st) && MapsActive(b.keyMap, b.st.rows) && b.made == 0 && b.ok
  }

  lemma {:induction false} StartsSane(c: Crypto, b: Boot)
    requires Starts(c, b)
    ensures Sane(c, b)
  {
    hide Consistent;
    hide Coherent;
    hide ActiveRow;
  }

  /**
   Whatever the table: a successful bootstrap gives every ACL pair an active key and caches
   the preloaded ones at that key's version; keys active before are untouched, and the
   cache stays coherent, also when a rule fails.
   */
  lemma {:induction false} BootstrapServes(c: Crypto, supply: Supply, b: Boot, rules: seq<Rule>)
    requires Starts(c, b)
    ensures var e := AfterRules(c, supply, b, rules);
            && Consistent(e.st.rows) && Coherent(c, e.st) && MapsKeys(e.keyMap, e.st.rows)
            && Grown(b.st.rows, e.st.rows) && ActiveKept(b.st.rows, e.st.rows)
            && (e.ok ==> forall i :: 0 <= i < |rules| ==> Served(c, e, rules[i]))
  {
    StartsSane(c, b);
    RulesFacts(c, supply, b, rules);
  }

  // ---------------------------------------------------------------- what a bootstrap makes

  /** The row is the n-th key that was made: a first version, with the purpose of its algorithm. */
  predicate IsMade(supply: Supply, n: nat, r: KeyRow) {
    && r.version == 1 && r.status == Active && r.isActive
    && r.secret == Supplied(supply, n).secret && r.publicKey == Supplied(supply, n).publicKey
    && r.createdAt == SavedAt(supply, n)
    && r.pair.algorithm != EcdsaP256 && r.pair !in supply.broken
    && (r.purpose == Signing <==> r.pair.algorithm == Ed25519)
    && (r.purpose == Authentication <==> r.pair.algorithm == HmacSha256)
  }

  /** Some rule asked for the row. */
  ghost predicate AskedFor(supply: Supply, rules: seq<Rule>, made: nat, r: KeyRow) {
    exists n: nat, k :: n < made && 0 <= k < |rules| && rules[k].p == r.pair && IsMade(supply, n, r)
  }

  /** Rows that differ were asked for and made; cached keys that differ were asked to be preloaded. */
  ghost predicate MakesOnly(supply: Supply, b: Boot, e: Boot, rules: seq<Rule>) {
    && |b.st.rows| <= |e.st.rows| <= |b.st.rows| + (e.made - b.made) && b.made <= e.made
    && (forall i :: 0 <= i < |e.st.rows| ==>
          (i < |b.st.rows| && e.st.rows[i] == b.st.rows[i]) || AskedFor(supply, rules, e.made, e.st.rows[i]))
    && (forall p :: p in b.st.cache ==> p in e.st.cache)
    && (forall p :: p in e.st.cache ==>
          || (p in b.st.cache && e.st.cache[p] == b.st.cache[p])
          || exists k :: 0 <= k < |rules| && rules[k] == Rule(p, true))
  }

  lemma UpsertedRows(t: Table, row: KeyRow)
    ensures var u := Upserted(t, row);
            && |t| <= |u| <= |t| + 1
            && forall i :: 0 <= i < |u| ==> (i < |t| && u[i] == t[i]) || u[i] == row.(id := u[i].id)
  {
  }

  lemma {:induction false} RuleMakesOnly(c: Crypto, supply: Supply, b: Boot, rule: Rule)
    ensures MakesOnly(supply, b, AfterRule(c, supply, b, rule), [rule])
  {
    var e := AfterRule(c, supply, b, rule);
    assert [rule][0] == rule;
    if b.ok && rule.p !in b.keyMap && !CannotMake(supply, rule.p) {
      var row := MadeKey(supply, b, rule.p);
      UpsertedRows(b.st.rows, row);
      hide Upserted;
      forall i | 0 <= i < |e.st.rows| && e.st.rows[i] == row.(id := e.st.rows[i].id)
        ensures AskedFor(supply, [rule], e.made, e.st.rows[i])
      {
        assert [rule][0].p == e.st.rows[i].pair && IsMade(supply, b.made, e.st.rows[i]);
      }
      hide AskedFor;
    }
  }

  lemma {:induction false} AskedForMore(supply: Supply, rules: seq<Rule>, more: seq<Rule>, m: nat, n: nat, r: KeyRow)
    requires m <= n && AskedFor(supply, rules, m, r)
    requires forall k :: 0 <= k < |rules| ==> rules[k] in more
    ensures AskedFor(supply, more, n, r)
  {
    var i: nat, k :| i < m && 0 <= k < |rules| && rules[k].p == r.pair && IsMade(supply, i, r);
    assert rules[k] in more;
    var l :| 0 <= l < |more| && more[l] == rules[k];
    assert i < n && more[l].p == r.pair;
  }

  lemma {:induction false} MakesOnlyTwice(supply: Supply, b: Boot, m: Boot, e: Boot, rules: seq<Rule>, rule: Rule)
    requires MakesOnly(supply, b, m, rules) && MakesOnly(supply, m, e, [rule])
    ensures MakesOnly(supply, b, e, rules + [rule])
  {
    var all := rules + [rule];
    assert rule in all;
    forall i | 0 <= i < |e.st.rows| && !(i < |b.st.rows| && e.st.rows[i] == b.st.rows[i])
      ensures AskedFor(supply, all, e.made, e.st.rows[i])
    {
      if i < |m.st.rows| && e.st.rows[i] == m.st.rows[i] {
        AskedForMore(supply, rules, all, m.made, e.made, e.st.rows[i]);
      } else {
        AskedForMore(supply, [rule], all, e.made, e.made, e.st.rows[i]);
      }
    }
    hide AskedFor;
    forall p | p in e.st.cache && !(p in b.st.cache && e.st.cache[p] == b.st.cache[p])
      ensures exists k :: 0 <= k < |all| && all[k] == Rule(p, true)
    {
      if p in m.st.cache && e.st.cache[p] == m.st.cache[p] {
        var k :| 0 <= k < |rules| && rules[k] == Rule(p, true);
        assert all[k] == Rule(p, true);
      } else {
        var k :| 0 <= k < 1 && [rule][k] == Rule(p, true);
        assert all[|rules|] == Rule(p, true);
      }
    }
  }

  /**
   A bootstrap changes nothing that its rules do not ask for: each row that is new or different is
   a first key made for a rule's pair, and each cached key that is new or different is a preload.
   */
  lemma {:induction false} BootstrapMakesOnly(c: Crypto, supply: Supply, b: Boot, rules: seq<Rule>)
    ensures MakesOnly(supply, b, AfterRules(c, supply, b, rules), rules)
    decreases |rules|
  {
    hide AfterRule;
    if rules != [] {
      var n := |rules| - 1;
      var m := AfterRules(c, supply, b, rules[..n]);
      BootstrapMakesOnly(c, supply, b, rules[..n]);
      RuleMakesOnly(c, supply, m, rules[n]);
      hide MakesOnly;
      MakesOnlyTwice(supply, b, m, AfterRule(c, supply, m, rules[n]), rules[..n], rules[n]);
      assert rules[..n] + [rules[n]] == rules;
    }
  }

  // ---------------------------------------------------------------- when the map is exact

  /** The pair's key can be made and some rule for it is reached, none before it having failed. */
  ghost predicate Touched(c: Crypto, supply: Supply, b: Boot, rules: seq<Rule>, q: Pair) {
    !CannotMake(supply, q) && exists i :: 0 <= i < |rules| && AfterRules(c, supply, b, rules[..i]).ok && rules[i].p == q
  }

  lemma {:induction false} TouchedSnoc(c: Crypto, supply: Supply, b: Boot, rules: seq<Rule>, q: Pair)
    requires rules != []
    ensures var n := |rules| - 1;
            Touched(c, supply, b, rules, q) <==>
            || Touched(c, supply, b, rules[..n], q)
            || (!CannotMake(supply, q) && AfterRules(c, supply, b, rules[..n]).ok && rules[n].p == q)
  {
    hide AfterRules;
    var n := |rules| - 1;
    assert forall i :: 0 <= i <= n ==> rules[..n][..i] == rules[..i];
    if i :| 0 <= i < n && AfterRules(c, supply, b, rules[..n][..i]).ok && rules[..n][i].p == q {
      assert rules[..n][..i] == rules[..i] && rules[i].p == q;
    }
    if i :| 0 <= i < n && AfterRules(c, supply, b, rules[..i]).ok && rules[i].p == q {
      assert rules[..n][..i] == rules[..i] && rules[..n][i].p == q;
    }
  }

  /** Making the key of an orphaned pair overwrites its version 1 and puts another id into the map. */
  lemma {:induction false} KeyExact(c: Crypto, supply: Supply, b: Boot, p: Pair)
    requires Sane(c, b) && (p in b.keyMap || !CannotMake(supply, p))
    ensures var t, e := b.st.rows, WithKey(supply, b, p);
            && (t <= e.st.rows <==> !Orphaned(t, p))
            && (FreshIds(supply, t) ==>
                  (MapsActive(e.keyMap, e.st.rows) <==> MapsActive(b.keyMap, t) && !Orphaned(t, p)))
  {
    var t := b.st.rows;
    if p in b.keyMap {
      assert !Orphaned(t, p);
    } else {
      var row := MadeKey(supply, b, p);
      NewKeyFacts(t, row);
      MapExact(supply, b.keyMap, t, Upserted(t, row), row, b.made);
    }
  }

  /** Preloading touches neither table nor map. */
  lemma {:induction false} RuleRows(c: Crypto, supply: Supply, b: Boot, rule: Rule)
    requires b.ok
    ensures var e := AfterRule(c, supply, b, rule);
            var m := if rule.p in b.keyMap || !CannotMake(supply, rule.p) then WithKey(supply, b, rule.p) else b;
            e.st.rows == m.st.rows && e.keyMap == m.keyMap
  {
  }

  lemma {:induction false} RuleExact(c: Crypto, supply: Supply, b: Boot, rule: Rule)
    requires Sane(c, b) && b.ok
    ensures var t, e := b.st.rows, AfterRule(c, supply, b, rule);
            var overwrites := Orphaned(t, rule.p) && !CannotMake(supply, rule.p);
            && (t <= e.st.rows <==> !overwrites)
            && (FreshIds(supply, t) ==>
                  (MapsActive(e.keyMap, e.st.rows) <==> MapsActive(b.keyMap, t) && !overwrites))
            && (forall q :: Orphaned(e.st.rows, q) <==> Orphaned(t, q) && !(q == rule.p && overwrites))
  {
    var t, p := b.st.rows, rule.p;
    assert p in b.keyMap ==> !Orphaned(t, p);
    RuleRows(c, supply, b, rule);
    hide AfterRule;
    hide WithKey;
    hide MapsActive;
    hide ActiveRow;
    hide Orphaned;
    if p in b.keyMap || !CannotMake(supply, p) {
      KeyFacts(c, supply, b, p);
      KeyExact(c, supply, b, p);
    }
  }

  lemma {:induction false} MapExact(supply: Supply, m: KeyMap, t: Table, u: Table, row: KeyRow, n: nat)
    requires MapsKeys(m, t) && row.pair !in m && row.id == Supplied(supply, n).id
    requires OthersSame(t, u, row.pair) && ActiveRow(u, row.pair).Some?
    requires !Orphaned(t, row.pair) ==> ActiveRow(u, row.pair).value == row
    requires Orphaned(t, row.pair) ==>
               exists i :: 0 <= i < |t| && t[i].pair == row.pair && t[i].id == ActiveRow(u, row.pair).value.id
    ensures FreshIds(supply, t) ==>
              (MapsActive(m[row.pair := EntityOf(row)], u) <==> MapsActive(m, t) && !Orphaned(t, row.pair))
  {
    var p := row.pair;
    assert ActiveRow(t, p).None?;
    if FreshIds(supply, t) && Orphaned(t, p) {
      var i :| 0 <= i < |t| && t[i].pair == p && t[i].id == ActiveRow(u, p).value.id;
      assert !ActiveFor(t[i], p);
      assert p in m[p := EntityOf(row)] && EntityOf(ActiveRow(u, p).value) != EntityOf(row);
    }
    hide ActiveRow;
    hide Orphaned;
    hide FreshIds;
    if MapsActive(m[p := EntityOf(row)], u) {
      forall q | q in m ensures ActiveRow(t, q).Some? && m[q] == EntityOf(ActiveRow(t, q).value) {
        assert m[p := EntityOf(row)][q] == m[q];
      }
    }
  }

  lemma {:induction false} GrownFresh(supply: Supply, t: Table, u: Table)
    requires FreshIds(supply, t) && Grown(t, u)
    ensures FreshIds(supply, u)
  {
    forall n: nat, i | 0 <= i < |u| && !u[i].isActive ensures Supplied(supply, n).id != u[i].id {
      assert i < |t| && u[i] == t[i];
    }
  }

  /** No rule reached is for a pair that had rows and no active one. */
  ghost predicate NoOrphanTouched(c: Crypto, supply: Supply, b: Boot, rules: seq<Rule>) {
    forall q :: Orphaned(b.st.rows, q) ==> !Touched(c, supply, b, rules, q)
  }

  lemma {:induction false} OrphansAfter(c: Crypto, supply: Supply, b: Boot, rules: seq<Rule>)
    requires Sane(c, b)
    ensures var e := AfterRules(c, supply, b, rules);
            forall q :: Orphaned(e.st.rows, q) <==>
              Orphaned(b.st.rows, q) && !Touched(c, supply, b, rules, q)
    decreases |rules|
  {
    hide Orphaned;
    hide Sane;
    if rules != [] {
      var n := |rules| - 1;
      var m := AfterRules(c, supply, b, rules[..n]);
      OrphansAfter(c, supply, b, rules[..n]);
      RulesFacts(c, supply, b, rules[..n]);
      forall q {
        TouchedSnoc(c, supply, b, rules, q);
      }
      if m.ok {
        RuleExact(c, supply, m, rules[n]);
      }
      hide Touched;
    }
  }

  /** Rows are only appended, and the map is exact, as long as no orphaned pair is touched. */
  lemma {:induction false} RunExact(c: Crypto, supply: Supply, b: Boot, rules: seq<Rule>)
    requires Starts(c, b)
    ensures var e := AfterRules(c, supply, b, rules);
            && (b.st.rows <= e.st.rows <==> NoOrphanTouched(c, supply, b, rules))
            && (FreshIds(supply, b.st.rows) ==>
                  (MapsActive(e.keyMap, e.st.rows) <==> NoOrphanTouched(c, supply, b, rules)))
    decreases |rules|
  {
    hide Orphaned;
    hide MapsActive;
    StartsSane(c, b);
    if rules == [] {
      StartsExact(c, supply, b);
    } else {
      var n := |rules| - 1;
      var m := AfterRules(c, supply, b, rules[..n]);
      RunExact(c, supply, b, rules[..n]);
      RulesFacts(c, supply, b, rules[..n]);
      OrphansAfter(c, supply, b, rules[..n]);
      forall q {
        TouchedSnoc(c, supply, b, rules, q);
      }
      hide Touched;
      if m.ok {
        var e := AfterRule(c, supply, m, rules[n]);
        RuleExact(c, supply, m, rules[n]);
        RuleFacts(c, supply, m, rules[n]);
        GrownTwice(b.st.rows, m.st.rows, e.st.rows);
        if FreshIds(supply, b.st.rows) {
          GrownFresh(supply, b.st.rows, m.st.rows);
        }
        hide AfterRule;
        hide Sane;
        hide Extends;
        hide FreshIds;
        hide Grown;
      }
    }
  }

  lemma {:induction false} StartsExact(c: Crypto, supply: Supply, b: Boot)
    requires Starts(c, b)
    ensures MapsActive(b.keyMap, b.st.rows) && NoOrphanTouched(c, supply, b, [])
  {
  }

  // ---------------------------------------------------------------- the same, told from the start

  /** What a new key is wrapped into can be unwrapped. */
  ghost predicate KeysOpen(c: Crypto, supply: Supply) {
    forall n: nat :: Opened(c, Supplied(supply, n).secret).Some?
  }

  /** The rule ends the bootstrap, by the map as it was read: no key can be made, or a preload does not unwrap. */
  predicate Fails(c: Crypto, supply: Supply, m: KeyMap, rule: Rule) {
    || (rule.p !in m && CannotMake(supply, rule.p))
    || (rule.preload && rule.p in m && Opened(c, m[rule.p].secret).None?)
  }

  /** Entries stay, and new ones are of pairs whose key could be made, and open. */
  ghost predicate MapGrew(c: Crypto, supply: Supply, m: KeyMap, e: KeyMap) {
    && (forall p :: p in m ==> p in e && e[p] == m[p])
    && (forall p :: p in e && p !in m ==> !CannotMake(supply, p) && Opened(c, e[p].secret).Some?)
  }

  lemma {:induction false} RuleOkIff(c: Crypto, supply: Supply, m: KeyMap, b: Boot, rule: Rule)
    requires KeysOpen(c, supply) && b.ok && MapGrew(c, supply, m, b.keyMap)
    ensures var e := AfterRule(c, supply, b, rule);
            (e.ok <==> !Fails(c, supply, m, rule)) && MapGrew(c, supply, m, e.keyMap)
  {
    var p := rule.p;
    if p !in b.keyMap && !CannotMake(supply, p) {
      assert Opened(c, Supplied(supply, b.made).secret).Some?;
      assert WithKey(supply, b, p).keyMap[p].secret == Supplied(supply, b.made).secret;
    }
    hide KeysOpen;
  }

  /** A bootstrap succeeds exactly when none of its rules fails by the map it starts from. */
  lemma {:induction false} BootstrapOkIff(c: Crypto, supply: Supply, b: Boot, rules: seq<Rule>)
    requires KeysOpen(c, supply) && b.ok
    ensures var e := AfterRules(c, supply, b, rules);
            && (e.ok <==> forall i :: 0 <= i < |rules| ==> !Fails(c, supply, b.keyMap, rules[i]))
            && MapGrew(c, supply, b.keyMap, e.keyMap)
    decreases |rules|
  {
    hide AfterRule;
    hide Fails;
    hide KeysOpen;
    if rules != [] {
      var n := |rules| - 1;
      var m := AfterRules(c, supply, b, rules[..n]);
      BootstrapOkIff(c, supply, b, rules[..n]);
      assert forall i :: 0 <= i < n ==> rules[..n][i] == rules[i];
      if m.ok {
        RuleOkIff(c, supply, b.keyMap, m, rules[n]);
      } else {
        FailureStays(c, supply, m, [rules[n]]);
        assert [rules[n]][..0] == [];
        assert AfterRule(c, supply, m, rules[n]) == m;
      }
      hide MapGrew;
    }
  }

  /** The pair's key can be made and a rule for it comes before the first that fails. */
  ghost predicate Reached(c: Crypto, supply: Supply, m: KeyMap, rules: seq<Rule>, q: Pair) {
    !CannotMake(supply, q) && exists i :: 0 <= i < |rules| && rules[i].p == q && NoneFails(c, supply, m, rules[..i])
  }

  ghost predicate NoneFails(c: Crypto, supply: Supply, m: KeyMap, rules: seq<Rule>) {
    forall i :: 0 <= i < |rules| ==> !Fails(c, supply, m, rules[i])
  }

  lemma {:induction false} TouchedIs(c: Crypto, supply: Supply, b: Boot, rules: seq<Rule>, q: Pair)
    requires KeysOpen(c, supply) && b.ok
    ensures Touched(c, supply, b, rules, q) <==> Reached(c, supply, b.keyMap, rules, q)
  {
    hide AfterRules;
    forall i | 0 <= i < |rules|
      ensures AfterRules(c, supply, b, rules[..i]).ok <==> NoneFails(c, supply, b.keyMap, rules[..i])
    {
      BootstrapOkIff(c, supply, b, rules[..i]);
    }
    hide NoneFails;
    hide CannotMake;
  }

  /** No rule before the first that fails is for a pair that has rows and no active one, and whose key can be made. */
  ghost predicate NoOrphanReached(c: Crypto, supply: Supply, b: Boot, rules: seq<Rule>) {
    forall q :: Orphaned(b.st.rows, q) ==> !Reached(c, supply, b.keyMap, rules, q)
  }

  /**
   By the table, the map read from it and the rules alone: bootstrap only appends rows, and
   its map stays the table's active set, exactly when it reaches no rule for an orphaned pair.
   */
  lemma {:induction false} BootstrapExactIff(c: Crypto, supply: Supply, b: Boot, rules: seq<Rule>)
    requires Starts(c, b) && KeysOpen(c, supply)
    ensures var e := AfterRules(c, supply, b, rules);
            && (b.st.rows <= e.st.rows <==> NoOrphanReached(c, supply, b, rules))
            && (FreshIds(supply, b.st.rows) ==>
                  (MapsActive(e.keyMap, e.st.rows) <==> NoOrphanReached(c, supply, b, rules)))
  {
    RunExact(c, supply, b, rules);
    forall q {
      TouchedIs(c, supply, b, rules, q);
    }
    hide *;
    assert NoOrphanTouched(c, supply, b, rules) <==> NoOrphanReached(c, supply, b, rules) by {
      SameOrphans(c, supply, b, rules);
    }
  }

  lemma {:induction false} SameOrphans(c: Crypto, supply: Supply, b: Boot, rules: seq<Rule>)
    requires forall q :: Touched(c, supply, b, rules, q) <==> Reached(c, supply, b.keyMap, rules, q)
    ensures NoOrphanTouched(c, supply, b, rules) <==> NoOrphanReached(c, supply, b, rules)
  {
    hide Touched;
    hide Reached;
    hide Orphaned;
  }

  /** Where no rule fails: it succeeds, and is exact exactly when no rule is for an orphaned pair. */
  lemma {:induction false} SuccessExactIff(c: Crypto, supply: Supply, b: Boot, rules: seq<Rule>)
    requires Starts(c, b) && KeysOpen(c, supply) && NoneFails(c, supply, b.keyMap, rules)
    ensures var e := AfterRules(c, supply, b, rules);
            var safe := forall i :: 0 <= i < |rules| ==> !Orphaned(b.st.rows, rules[i].p);
            && e.ok && (b.st.rows <= e.st.rows <==> safe)
            && (FreshIds(supply, b.st.rows) ==> (MapsActive(e.keyMap, e.st.rows) <==> safe))
  {
    hide AfterRules;
    hide Fails;
    BootstrapOkIff(c, supply, b, rules);
    BootstrapExactIff(c, supply, b, rules);
    forall i | 0 <= i < |rules| && Orphaned(b.st.rows, rules[i].p)
      ensures Reached(c, supply, b.keyMap, rules, rules[i].p)
    {
      OrphanReached(c, supply, b, rules, i);
    }
    hide Orphaned;
  }

  lemma {:induction false} OrphanReached(c: Crypto, supply: Supply, b: Boot, rules: seq<Rule>, i: nat)
    requires i < |rules| && Orphaned(b.st.rows, rules[i].p) && MapsActive(b.keyMap, b.st.rows)
    requires NoneFails(c, supply, b.keyMap, rules)
    ensures Reached(c, supply, b.keyMap, rules, rules[i].p)
  {
    assert !Fails(c, supply, b.keyMap, rules[i]) && rules[i].p !in b.keyMap;
    assert NoneFails(c, supply, b.keyMap, rules[..i]);
  }

  /**
   After one failed save and a restart, bootstrap overwrites the old version 1 and maps the
   pair to an id that is not in the table.
   */
  lemma {:induction false} FailedSaveThenBootstrap(
      c: Crypto, supply: Supply, p: Pair, purpose: Purpose, first: Material, lost: Material, now: nat)
    requires !CannotMake(supply, p) && Supplied(supply, 0).id != first.id
    ensures var t := TableAfter([Generate(p, purpose, first, now, true), Generate(p, purpose, lost, now, false)]);
            var key := NewRow(p, 1, PurposeFor(p.algorithm), Supplied(supply, 0), SavedAt(supply, 0));
            var e := AfterRules(c, supply, Boot(State(t, map[]), map[], 0, true), [Rule(p, false)]);
            && |t| == 1 && e.ok && e.st.rows == [key.(id := first.id)] && e.keyMap == map[p := EntityOf(key)]
            && !(t <= e.st.rows) && !MapsActive(e.keyMap, e.st.rows)
  {
    var g1, g2 := Generate(p, purpose, first, now, true), Generate(p, purpose, lost, now, false);
    var row := NewRow(p, 1, purpose, first, now);
    assert [g1, g2][..1] == [g1] && [g1][..0] == [];
    assert TableAfter([g1]) == [row];
    assert ActiveRow([row], p) == Some(row);
    var put := RevokedRow(row, p);
    assert TableAfter([g1, g2]) == [put];
    var key := NewRow(p, 1, PurposeFor(p.algorithm), Supplied(supply, 0), SavedAt(supply, 0));
    assert SameKey([put][0], key);
    assert Upserted([put], key) == [Overwritten(put, key)];
    var b := Boot(State([put], map[]), map[], 0, true);
    var e := AfterRule(c, supply, b, Rule(p, false));
    assert [Rule(p, false)][..0] == [];
    assert AfterRules(c, supply, b, [Rule(p, false)]) == e;
    assert e.keyMap == map[p := EntityOf(key)];
    assert p in e.keyMap && ActiveRow(e.st.rows, p) == Some(key.(id := first.id));
  }

  // ---------------------------------------------------------------- a second run

  lemma {:induction false} ServedRuleIdle(c: Crypto, supply: Supply, b: Boot, rule: Rule)
    requires b.ok && Served(c, b, rule) && MapsActive(b.keyMap, b.st.rows)
    ensures AfterRule(c, supply, b, rule) == b
  {
    assert rule.p in b.keyMap && b.keyMap[rule.p] == EntityOf(ActiveRow(b.st.rows, rule.p).value);
    if rule.preload {
      assert b.st.cache[rule.p := b.st.cache[rule.p]] == b.st.cache;
    }
  }

  lemma {:induction false} ServedRulesMakeNothing(c: Crypto, supply: Supply, b: Boot, rules: seq<Rule>)
    requires b.ok && MapsActive(b.keyMap, b.st.rows) && forall i :: 0 <= i < |rules| ==> Served(c, b, rules[i])
    ensures AfterRules(c, supply, b, rules) == b
    decreases |rules|
  {
    hide AfterRule;
    hide Served;
    hide MapsActive;
    if rules != [] {
      var n := |rules| - 1;
      ServedRulesMakeNothing(c, supply, b, rules[..n]);
      ServedRuleIdle(c, supply, b, rules[n]);
    }
  }

  /** A second bootstrap over the same ACL, its map read again, makes no key and changes nothing. */
  lemma {:induction false} SecondBootstrapIdle(
      c: Crypto, supply: Supply, again: Supply, b: Boot, rules: seq<Rule>, second: Boot)
    requires Starts(c, b) && AfterRules(c, supply, b, rules).ok
    requires second.ok && second.st == AfterRules(c, supply, b, rules).st
    requires MapsActive(second.keyMap, second.st.rows)
    ensures AfterRules(c, again, second, rules) == second
  {
    hide AfterRules;
    StartsSane(c, b);
    RulesFacts(c, supply, b, rules);
    forall i | 0 <= i < |rules| ensures Served(c, second, rules[i]) {
      assert Served(c, AfterRules(c, supply, b, rules), rules[i]);
    }
    ServedRulesMakeNothing(c, again, second, rules);
  }

  // ---------------------------------------------------------------- the loops

  /** After a failed rule nothing more happens, which is the early return of the loops. */
  lemma {:induction false} FailureStays(c: Crypto, supply: Supply, b: Boot, rest: seq<Rule>)
    requires !b.ok
    ensures AfterRules(c, supply, b, rest) == b
    decreases |rest|
  {
    if rest != [] {
      FailureStays(c, supply, b, rest[..|rest| - 1]);
    }
  }

  lemma {:induction false} RulesSplit(c: Crypto, supply: Supply, b: Boot, xs: seq<Rule>, ys: seq<Rule>)
    ensures AfterRules(c, supply, b, xs + ys) == AfterRules(c, supply, AfterRules(c, supply, b, xs), ys)
    decreases |ys|
  {
    hide AfterRule;
    if ys == [] {
      assert xs + ys == xs;
    } else {
      var n := |ys| - 1;
      RulesSplit(c, supply, b, xs, ys[..n]);
      assert (xs + ys)[..|xs| + n] == xs + ys[..n];
    }
  }

  /** The first i services, then one more. */
  lemma FlatGrows(services: seq<seq<Rule>>, i: nat)
    requires i < |services|
    ensures Flat(services[..i + 1]) == Flat(services[..i]) + services[i]
  {
    assert services[..i + 1][..i] == services[..i];
  }

  /** A failure in service i is the outcome of the whole. */
  lemma {:induction false} FailedService(c: Crypto, supply: Supply, b: Boot, services: seq<seq<Rule>>, i: nat)
    requires i <= |services| && !AfterRules(c, supply, b, Flat(services[..i])).ok
    ensures AfterRules(c, supply, b, Flat(services)) == AfterRules(c, supply, b, Flat(services[..i]))
    decreases |services| - i
  {
    hide AfterRules;
    if i == |services| {
      assert services[..i] == services;
    } else {
      var e := AfterRules(c, supply, b, Flat(services[..i]));
      FlatGrows(services, i);
      RulesSplit(c, supply, b, Flat(services[..i]), services[i]);
      FailureStays(c, supply, e, services[i]);
      FailedService(c, supply, b, services, i + 1);
    }
  }
}
