/** The compiled access policy against the direct lookups in the settings it is made from. */
module Acl {
  import opened Wrappers
  import opened KeyTable

  datatype KeyAccessLevel = PrivateKey | PublicKey | SymmetricKey | GenerateDataKey

  datatype ControlAction =
    | GenerateKeys | RotateOwnKeys | RotateAllKeys | RevokeKeys | AuditVerify | AuditRead | BootstrapImport
    | CaSignIntermediate

  datatype AccessRule = AccessRule(target: string, algorithm: Algorithm, level: KeyAccessLevel, preload: bool)

  datatype ServiceConfig = ServiceConfig(
    serviceId: string, allowedAccess: seq<AccessRule>, allowedActions: Option<seq<ControlAction>>)

  type Settings = map<string, ServiceConfig>

  datatype AccessKey = AccessKey(caller: string, target: string, algorithm: Algorithm, level: KeyAccessLevel)

  datatype Compiled = Compiled(access: set<AccessKey>, preload: set<Pair>, actions: map<string, set<ControlAction>>)

  // ---------------------------------------------------------------- direct lookups

  /** The entry lists the grant, whoever its caller is. */
  predicate Lists(cfg: ServiceConfig, key: AccessKey) {
    exists i :: 0 <= i < |cfg.allowedAccess| &&
      cfg.allowedAccess[i].target == key.target && cfg.allowedAccess[i].algorithm == key.algorithm &&
      cfg.allowedAccess[i].level == key.level
  }

  function Grant(rule: AccessRule, caller: string): AccessKey {
    AccessKey(caller, rule.target, rule.algorithm, rule.level)
  }

  predicate IsAllowed(acl: Settings, key: AccessKey) {
    key.caller in acl && Lists(acl[key.caller], key)
  }

  predicate Preloads(cfg: ServiceConfig, p: Pair) {
    exists i :: 0 <= i < |cfg.allowedAccess| && cfg.allowedAccess[i].preload &&
      Pair(cfg.allowedAccess[i].target, cfg.allowedAccess[i].algorithm) == p
  }

  predicate ShouldPreload(acl: Settings, p: Pair) {
    exists k :: k in acl && Preloads(acl[k], p)
  }

  function Actions(cfg: ServiceConfig): set<ControlAction> {
    match cfg.allowedActions
    case None => {}
    case Some(list) => set a | a in list
  }

  function ActionsFor(acl: Settings, caller: string): set<ControlAction> {
    if caller in acl then Actions(acl[caller]) else {}
  }

  predicate HasControlAction(acl: Settings, caller: string, action: ControlAction) {
    caller in acl && acl[caller].allowedActions.Some? && action in acl[caller].allowedActions.value
  }

  // ---------------------------------------------------------------- compiling

  /** `order` lists every key once, as a hash map's iteration does. */
  ghost predicate Enumerates(order: seq<string>, keys: set<string>) {
    && (forall i :: 0 <= i < |order| ==> order[i] in keys)
    && (forall k :: k in keys ==> k in order)
    && (forall i, j :: 0 <= i < j < |order| ==> order[i] != order[j])
  }

  /** Some entry among `keys` grants it under its own service id. */
  ghost predicate Granted(acl: Settings, keys: set<string>, key: AccessKey) {
    exists k :: k in keys && k in acl && acl[k].serviceId == key.caller && Lists(acl[k], key)
  }

  ghost predicate Preloaded(acl: Settings, keys: set<string>, p: Pair) {
    exists k :: k in keys && k in acl && Preloads(acl[k], p)
  }

  /** What one entry's rules add. */
  ghost predicate Adds(
      cfg: ServiceConfig, access0: set<AccessKey>, preload0: set<Pair>, access: set<AccessKey>, preload: set<Pair>)
  {
    && (forall key :: key in access <==> key in access0 || (key.caller == cfg.serviceId && Lists(cfg, key)))
    && (forall p :: p in preload <==> p in preload0 || Preloads(cfg, p))
  }

  /** The sets hold what the entries of `keys` grant and preload. */
  ghost predicate Holds(acl: Settings, keys: set<string>, access: set<AccessKey>, preload: set<Pair>) {
    && (forall key :: key in access <==> Granted(acl, keys, key))
    && (forall p :: p in preload <==> Preloaded(acl, keys, p))
  }

  lemma OneMoreEntry(
    acl: Settings, keys: set<string>, k: string,
    access0: set<AccessKey>, preload0: set<Pair>, access: set<AccessKey>, preload: set<Pair>)
    requires k in acl && Holds(acl, keys, access0, preload0) && Adds(acl[k], access0, preload0, access, preload)
    ensures Holds(acl, keys + {k}, access, preload)
  {
    hide Lists;
    hide Preloads;
  }

  lemma NothingYet(acl: Settings)
    ensures Holds(acl, {}, {}, {}) && Enumerates([], {}) && LastActions(acl, []) == map[]
  {
  }

  lemma OneMoreKey(order: seq<string>, keys: set<string>, k: string)
    requires Enumerates(order, keys) && k !in keys
    ensures Enumerates(order + [k], keys + {k})
  {
  }

  /** The last entry with a service id decides its actions. */
  function LastActions(acl: Settings, order: seq<string>): map<string, set<ControlAction>> {
    if order == [] then map[]
    else
      var n := |order| - 1;
      if order[n] in acl then LastActions(acl, order[..n])[acl[order[n]].serviceId := Actions(acl[order[n]])]
      else LastActions(acl, order[..n])
  }

  function CompiledActions(actions: map<string, set<ControlAction>>, caller: string): set<ControlAction> {
    if caller in actions then actions[caller] else {}
  }

  /** The inner loop of `compile`: one entry's rules. */
  method CompileRules(cfg: ServiceConfig, access0: set<AccessKey>, preload0: set<Pair>)
    returns (access: set<AccessKey>, preload: set<Pair>)
    ensures Adds(cfg, access0, preload0, access, preload)
  {
    access, preload := access0, preload0;
    for n := 0 to |cfg.allowedAccess|
      invariant forall key :: key in access <==>
                  key in access0 || exists i :: 0 <= i < n && Grant(cfg.allowedAccess[i], cfg.serviceId) == key
      invariant forall p :: p in preload <==>
                  p in preload0 || Preloads(cfg.(allowedAccess := cfg.allowedAccess[..n]), p)
    {
      var rule := cfg.allowedAccess[n];
      access := access + {Grant(rule, cfg.serviceId)};
      assert cfg.allowedAccess[..n + 1] == cfg.allowedAccess[..n] + [rule];
      if rule.preload {
        preload := preload + {Pair(rule.target, rule.algorithm)};
      }
    }
    assert cfg.allowedAccess[..|cfg.allowedAccess|] == cfg.allowedAccess;
  }

  lemma ActionsSnoc(acl: Settings, order: seq<string>, k: string)
    requires k in acl
    ensures LastActions(acl, order + [k]) == LastActions(acl, order)[acl[k].serviceId := Actions(acl[k])]
  {
    assert (order + [k])[..|order|] == order;
  }

  /** `compile`, over the settings in any order. */
  method Compile(acl: Settings) returns (r: Compiled, ghost order: seq<string>)
    ensures Enumerates(order, acl.Keys)
    ensures Holds(acl, acl.Keys, r.access, r.preload)
    ensures r.actions == LastActions(acl, order)
  {
    var access: set<AccessKey>, preload: set<Pair> := {}, {};
    var actions: map<string, set<ControlAction>> := map[];
    var todo := acl.Keys;
    ghost var done: set<string> := {};
    order := [];
    NothingYet(acl);
    hide *;
    while todo != {}
      invariant todo + done == acl.Keys && todo !! done
      invariant Enumerates(order, done)
      invariant Holds(acl, done, access, preload)
      invariant actions == LastActions(acl, order)
      decreases |todo|
    {
      var k :| k in todo;
      OneMoreKey(order, done, k);
      ActionsSnoc(acl, order, k);
      actions := actions[acl[k].serviceId := Actions(acl[k])];
      var access1, preload1 := CompileRules(acl[k], access, preload);
      OneMoreEntry(acl, done, k, access, preload, access1, preload1);
      access, preload := access1, preload1;
      todo, done, order := todo - {k}, done + {k}, order + [k];
    }
    assert done == acl.Keys;
    r := Compiled(access, preload, actions);
  }

  // ---------------------------------------------------------------- agreement

  ghost predicate AccessAgrees(acl: Settings) {
    forall key :: Granted(acl, acl.Keys, key) <==> IsAllowed(acl, key)
  }

  /** The entry has a rule for the same target, algorithm and access level. */
  predicate HasRule(cfg: ServiceConfig, rule: AccessRule) {
    exists i :: 0 <= i < |cfg.allowedAccess| && SameGrant(cfg.allowedAccess[i], rule)
  }

  predicate SameGrant(r: AccessRule, s: AccessRule) {
    r.target == s.target && r.algorithm == s.algorithm && r.level == s.level
  }

  /**
   Whatever an entry allows, the entry stored under its service id allows too, and so does
   some entry whose service id is the key it is stored under.
   */
  ghost predicate Aligned(acl: Settings) {
    forall k, i :: k in acl && 0 <= i < |acl[k].allowedAccess| ==> RuleAligned(acl, k, acl[k].allowedAccess[i])
  }

  ghost predicate RuleAligned(acl: Settings, k: string, rule: AccessRule)
    requires k in acl
  {
    && acl[k].serviceId in acl && HasRule(acl[acl[k].serviceId], rule)
    && exists j :: j in acl && acl[j].serviceId == k && HasRule(acl[j], rule)
  }

  /** Listing a grant is having a rule for it. */
  lemma ListsRule(cfg: ServiceConfig, rule: AccessRule, caller: string)
    ensures Lists(cfg, Grant(rule, caller)) <==> HasRule(cfg, rule)
  {
    if i :| 0 <= i < |cfg.allowedAccess| && SameGrant(cfg.allowedAccess[i], rule) {
      assert Grant(cfg.allowedAccess[i], caller) == Grant(rule, caller);
    }
    if i :| 0 <= i < |cfg.allowedAccess| && Grant(cfg.allowedAccess[i], caller) == Grant(rule, caller) {
      assert SameGrant(cfg.allowedAccess[i], rule);
    }
  }

  lemma RuleAlignedIs(acl: Settings, k: string, rule: AccessRule)
    requires k in acl
    ensures RuleAligned(acl, k, rule) <==>
            IsAllowed(acl, Grant(rule, acl[k].serviceId)) && Granted(acl, acl.Keys, Grant(rule, k))
  {
    hide Lists;
    hide HasRule;
    if acl[k].serviceId in acl {
      ListsRule(acl[acl[k].serviceId], rule, acl[k].serviceId);
    }
    forall j | j in acl ensures Lists(acl[j], Grant(rule, k)) <==> HasRule(acl[j], rule) {
      ListsRule(acl[j], rule, k);
    }
  }

  lemma AgreesAligned(acl: Settings, k: string, i: nat)
    requires AccessAgrees(acl) && k in acl && i < |acl[k].allowedAccess|
    ensures RuleAligned(acl, k, acl[k].allowedAccess[i])
  {
    var rule := acl[k].allowedAccess[i];
    var own, stored := Grant(rule, acl[k].serviceId), Grant(rule, k);
    assert Lists(acl[k], own) && Lists(acl[k], stored);
    assert Granted(acl, acl.Keys, own) && IsAllowed(acl, stored);
    RuleAlignedIs(acl, k, rule);
  }

  lemma AlignedRule(acl: Settings, k: string, i: nat)
    requires Aligned(acl) && k in acl && i < |acl[k].allowedAccess|
    ensures var rule := acl[k].allowedAccess[i];
            IsAllowed(acl, Grant(rule, acl[k].serviceId)) && Granted(acl, acl.Keys, Grant(rule, k))
  {
    hide RuleAligned;
    assert RuleAligned(acl, k, acl[k].allowedAccess[i]);
    RuleAlignedIs(acl, k, acl[k].allowedAccess[i]);
  }

  lemma AlignedAgrees(acl: Settings, k: string, key: AccessKey)
    requires Aligned(acl) && k in acl && Lists(acl[k], key)
    ensures acl[k].serviceId == key.caller ==> IsAllowed(acl, key)
    ensures k == key.caller ==> Granted(acl, acl.Keys, key)
  {
    hide Aligned;
    hide Granted;
    var i :| 0 <= i < |acl[k].allowedAccess| && Grant(acl[k].allowedAccess[i], key.caller) == key;
    AlignedRule(acl, k, i);
  }

  /** The compiled policy answers every access query as the settings do exactly when they are aligned. */
  lemma AccessAgreesIff(acl: Settings)
    ensures AccessAgrees(acl) <==> Aligned(acl)
  {
    hide Lists;
    hide RuleAligned;
    if AccessAgrees(acl) {
      forall k, i | k in acl && 0 <= i < |acl[k].allowedAccess| ensures RuleAligned(acl, k, acl[k].allowedAccess[i]) {
        AgreesAligned(acl, k, i);
      }
    } else if Aligned(acl) {
      forall k, key | k in acl && Lists(acl[k], key)
        ensures acl[k].serviceId == key.caller ==> IsAllowed(acl, key)
        ensures k == key.caller ==> Granted(acl, acl.Keys, key)
      {
        AlignedAgrees(acl, k, key);
      }
    }
  }

  lemma PreloadAgrees(acl: Settings, p: Pair)
    ensures Preloaded(acl, acl.Keys, p) <==> ShouldPreload(acl, p)
  {
  }

  /** Whatever the iteration order, the compiled actions are those of the settings. */
  ghost predicate ActionsAgree(acl: Settings) {
    forall order, caller, action :: Enumerates(order, acl.Keys) ==>
      (action in CompiledActions(LastActions(acl, order), caller) <==> HasControlAction(acl, caller, action))
  }

  /** Entries sharing a service id have the actions stored under it; a key that is nobody's id has none. */
  ghost predicate ActionsAligned(acl: Settings) {
    && (forall k :: k in acl ==> Actions(acl[k]) == ActionsFor(acl, acl[k].serviceId))
    && (forall k :: k in acl && (forall j :: j in acl ==> acl[j].serviceId != k) ==> Actions(acl[k]) == {})
  }

  lemma {:induction false} LastActionsAre(acl: Settings, order: seq<string>, caller: string)
    requires forall i :: 0 <= i < |order| ==> order[i] in acl
    ensures caller in LastActions(acl, order) <==> exists i :: 0 <= i < |order| && acl[order[i]].serviceId == caller
    ensures caller in LastActions(acl, order) ==>
              exists i :: 0 <= i < |order| && acl[order[i]].serviceId == caller &&
                          LastActions(acl, order)[caller] == Actions(acl[order[i]])
  {
    if order != [] {
      var n := |order| - 1;
      LastActionsAre(acl, order[..n], caller);
      if acl[order[n]].serviceId != caller && caller in LastActions(acl, order[..n]) {
        var i :| 0 <= i < |order[..n]| && acl[order[..n][i]].serviceId == caller &&
          LastActions(acl, order[..n])[caller] == Actions(acl[order[..n][i]]);
        assert order[i] == order[..n][i];
      }
    }
  }

  lemma AlignedActionsAgree(acl: Settings, order: seq<string>, caller: string)
    requires ActionsAligned(acl) && Enumerates(order, acl.Keys)
    ensures CompiledActions(LastActions(acl, order), caller) == ActionsFor(acl, caller)
  {
    LastActionsAre(acl, order, caller);
    if caller !in LastActions(acl, order) && caller in acl {
      forall j | j in acl ensures acl[j].serviceId != caller {
        assert j in order;
      }
    }
  }

  /** Some iteration ends with `k`. */
  lemma {:induction false} OrderEndingIn(keys: set<string>, k: string) returns (order: seq<string>)
    requires k in keys
    ensures Enumerates(order, keys) && order[|order| - 1] == k
    decreases |keys|
  {
    var rest := keys - {k};
    if rest == {} {
      order := [k];
    } else {
      var j :| j in rest;
      var before := OrderEndingIn(rest, j);
      OneMoreKey(before, rest, k);
      order := before + [k];
      assert rest + {k} == keys;
    }
  }

  /** The compiled control actions are the settings' for every iteration order exactly when those are aligned. */
  lemma ActionsAgreeIff(acl: Settings)
    ensures ActionsAgree(acl) <==> ActionsAligned(acl)
  {
    if ActionsAligned(acl) {
      forall order, caller, action | Enumerates(order, acl.Keys)
        ensures action in CompiledActions(LastActions(acl, order), caller) <==> HasControlAction(acl, caller, action)
      {
        AlignedActionsAgree(acl, order, caller);
      }
    }
    if ActionsAgree(acl) {
      forall k | k in acl ensures Actions(acl[k]) == ActionsFor(acl, acl[k].serviceId) {
        DecidedByLast(acl, k);
      }
      forall k | k in acl && (forall j :: j in acl ==> acl[j].serviceId != k) ensures Actions(acl[k]) == {} {
        NobodysId(acl, k);
      }
    }
  }

  lemma DecidedByLast(acl: Settings, k: string)
    requires k in acl && ActionsAgree(acl)
    ensures Actions(acl[k]) == ActionsFor(acl, acl[k].serviceId)
  {
    var order := OrderEndingIn(acl.Keys, k);
    var id := acl[k].serviceId;
    assert CompiledActions(LastActions(acl, order), id) == Actions(acl[k]);
    forall action ensures action in Actions(acl[k]) <==> action in ActionsFor(acl, id) {
      assert action in CompiledActions(LastActions(acl, order), id) <==> HasControlAction(acl, id, action);
    }
  }

  lemma NobodysId(acl: Settings, k: string)
    requires k in acl && ActionsAgree(acl) && forall j :: j in acl ==> acl[j].serviceId != k
    ensures Actions(acl[k]) == {}
  {
    var order := OrderEndingIn(acl.Keys, k);
    LastActionsAre(acl, order, k);
    forall action ensures action !in Actions(acl[k]) {
      assert action in CompiledActions(LastActions(acl, order), k) <==> HasControlAction(acl, k, action);
    }
  }

  /** Keys that equal their entries' service ids are enough for both. */
  lemma MatchingKeysAgree(acl: Settings)
    requires forall k :: k in acl ==> acl[k].serviceId == k
    ensures AccessAgrees(acl) && ActionsAgree(acl)
  {
    forall k, i | k in acl && 0 <= i < |acl[k].allowedAccess| ensures RuleAligned(acl, k, acl[k].allowedAccess[i]) {
      assert SameGrant(acl[k].allowedAccess[i], acl[k].allowedAccess[i]);
      assert HasRule(acl[k], acl[k].allowedAccess[i]);
    }
    AccessAgreesIff(acl);
    ActionsAgreeIff(acl);
  }

  /** An entry stored under another service's name: the compiled policy and the settings disagree. */
  lemma MisplacedEntry(rule: AccessRule, action: ControlAction)
    ensures var acl := map["a" := ServiceConfig("b", [rule], Some([action]))];
            !AccessAgrees(acl) && !ActionsAgree(acl)
  {
    var acl := map["a" := ServiceConfig("b", [rule], Some([action]))];
    assert acl["a"].serviceId == "b" && "b" !in acl;
    assert !RuleAligned(acl, "a", acl["a"].allowedAccess[0]);
    AccessAgreesIff(acl);
    assert action in Actions(acl["a"]);
    ActionsAgreeIff(acl);
  }
}
