/** The resolution as the compiler fills it in, and the compiler itself. */
module PolicyCompiler {
  import opened Ids
  import opened Vocabulary
  import opened Merging
  import opened SortedUnique
  import opened Policies

  /** The claims a list of requirements names, gathered entry by entry. */
  method GatherClaims(m: map<ReqId, PolicyRequirement>) returns (claims: set<Id>)
    ensures claims == ClaimsNamed(m)
  {
    claims := {};
    var remaining := m.Keys;
    while remaining != {}
      invariant remaining <= m.Keys
      invariant forall c :: c in claims <==> exists id :: id in m && id !in remaining && c in m[id].claims
      decreases |remaining|
    {
      var id :| id in remaining;
      claims := claims + Elements(m[id].claims);
      remaining := remaining - {id};
    }
  }

  method GatherGateClaims(gates: seq<GateRequirement>) returns (claims: set<Id>)
    ensures claims == GateClaims(gates)
  {
    claims := {};
    for i := 0 to |gates|
      invariant forall c :: c in claims <==> exists k :: 0 <= k < i && c in gates[k].claims
    {
      claims := claims + Elements(gates[i].claims);
    }
    forall c ensures c in claims <==> c in GateClaims(gates) {
      if c in GateClaims(gates) {
        var g :| g in gates && c in g.claims;
        var k :| 0 <= k < |gates| && gates[k] == g;
        assert c in gates[k].claims;
      }
    }
  }

  class Resolution {
    var invariants: map<ReqId, Requirement>
    var obligations: map<ReqId, Requirement>
    var claims: map<Id, RequiredClaim>
    var permissions: set<Action>
    var prohibitions: set<Action>
    var conditions: map<Action, set<Id>>
    var references: set<Id>
    var discharge: set<Id>
    var roles: map<Role, RoleDuty>
    var capabilities: set<Capability>
    var gates: map<GateKey, set<Id>>

    constructor ()
      ensures So() == NOTHING
    {
      invariants, obligations, claims := map[], map[], map[];
      permissions, prohibitions, conditions := {}, {}, map[];
      references, discharge := {}, {};
      roles, capabilities, gates := map[], {}, map[];
    }

    ghost function So(): State
      reads this
    {
      State(invariants, obligations, claims, permissions, prohibitions, conditions, references, discharge, roles, capabilities, gates)
    }

    /** `addRequirement`, for an obligation. */
    method AddObligationRequirement(id: ReqId, r: PolicyRequirement) returns (ok: bool)
      modifies this`obligations, this`references
      ensures ok <==> AddObligation(old(So()), id, r).Some?
      ensures ok ==> So() == AddObligation(old(So()), id, r).value
    {
      var definition := Normalize(r);
      if id in obligations && obligations[id] != definition { return false; }
      assert obligations[id := definition] == obligations + map[id := definition];
      obligations := obligations[id := definition];
      references := references + definition.claims;
      return true;
    }

    method AddRoles(required: seq<RoleRequirement>) returns (ok: bool)
      modifies this`roles
      ensures ok <==> FoldAll(AddRole, old(roles), required).Some?
      ensures ok ==> roles == FoldAll(AddRole, old(roles), required).value
    {
      for i := 0 to |required|
        invariant FoldAll(AddRole, old(roles), required[..i]) == Some(roles)
      {
        var r := required[i];
        FoldNext(AddRole, old(roles), required, i);
        if !RoleKnown(r) {
          FailedStaysFailed(AddRole, old(roles), required, i + 1);
          return false;
        }
        if r.role !in roles {
          roles := roles[r.role := NormalizeRole(r)];
          continue;
        }
        roles := roles[r.role := MergeRoles(roles[r.role], NormalizeRole(r))];
      }
      assert required[..|required|] == required;
      return true;
    }

    method AddCapabilities(required: seq<Capability>) returns (ok: bool)
      modifies this`capabilities
      ensures ok <==> forall c :: c in required ==> KnownCapability(c)
      ensures ok ==> capabilities == old(capabilities) + Elements(required)
    {
      for i := 0 to |required|
        invariant capabilities == old(capabilities) + Elements(required[..i])
        invariant forall k | 0 <= k < i :: KnownCapability(required[k])
      {
        if !KnownCapability(required[i]) { return false; }
        assert required[..i + 1] == required[..i] + [required[i]];
        capabilities := capabilities + {required[i]};
      }
      assert required[..|required|] == required;
      return true;
    }

    method AddGates(required: seq<GateRequirement>) returns (ok: bool)
      modifies this`gates
      ensures ok <==> FoldAll(AddGate, old(gates), required).Some?
      ensures ok ==> gates == FoldAll(AddGate, old(gates), required).value
    {
      for i := 0 to |required|
        invariant FoldAll(AddGate, old(gates), required[..i]) == Some(gates)
      {
        var g := required[i];
        FoldNext(AddGate, old(gates), required, i);
        if g.kind.NotAGate? {
          FailedStaysFailed(AddGate, old(gates), required, i + 1);
          return false;
        }
        var key := GateKey(g.kind, g.action);
        if key !in gates {
          gates := gates[key := Elements(g.claims)];
          continue;
        }
        gates := gates[key := gates[key] + Elements(g.claims)];
      }
      assert required[..|required|] == required;
      return true;
    }

    method AddConditions(stated: seq<AuthorityCondition>) returns (ok: bool)
      modifies this`conditions
      ensures ok <==> FoldAll(AddCondition, old(conditions), stated).Some?
      ensures ok ==> conditions == FoldAll(AddCondition, old(conditions), stated).value
    {
      for i := 0 to |stated|
        invariant FoldAll(AddCondition, old(conditions), stated[..i]) == Some(conditions)
      {
        var c := stated[i];
        FoldNext(AddCondition, old(conditions), stated, i);
        if c.action in conditions && conditions[c.action] != Elements(c.claims) {
          FailedStaysFailed(AddCondition, old(conditions), stated, i + 1);
          return false;
        }
        conditions := conditions[c.action := Elements(c.claims)];
      }
      assert stated[..|stated|] == stated;
      return true;
    }

    /** `addEngineeringRequirements`. */
    method AddEngineeringRequirements(e: Effect) returns (ok: bool)
      modifies this`roles, this`capabilities, this`gates, this`references
      ensures ok <==> FoldAll(AddRole, old(roles), e.roles).Some? && FoldAll(AddGate, old(gates), e.gates).Some?
                        && forall c :: c in e.capabilities ==> KnownCapability(c)
      ensures ok ==> roles == FoldAll(AddRole, old(roles), e.roles).value && gates == FoldAll(AddGate, old(gates), e.gates).value
      ensures ok ==> capabilities == old(capabilities) + Elements(e.capabilities) && references == old(references) + GateClaims(e.gates)
    {
      ok := AddRoles(e.roles);
      if !ok { return; }
      ok := AddCapabilities(e.capabilities);
      if !ok { return; }
      ok := AddGates(e.gates);
      if !ok { return; }
      var named := GatherGateClaims(e.gates);
      references := references + named;
    }

    /** The requirements and claims one rule states. */
    method AddStated(e: Effect) returns (ok: bool)
      modifies this`invariants, this`obligations, this`claims, this`references
      ensures ok <==> MergeAgree(old(invariants), NormalizeAll(e.invariants)).Some?
                        && MergeAgree(old(obligations), NormalizeAll(e.obligations)).Some?
                        && MergeAgree(old(claims), e.claims).Some?
      ensures ok ==> Some(invariants) == MergeAgree(old(invariants), NormalizeAll(e.invariants))
                       && Some(obligations) == MergeAgree(old(obligations), NormalizeAll(e.obligations))
                       && Some(claims) == MergeAgree(old(claims), e.claims)
      ensures ok ==> references == old(references) + ClaimsNamed(e.invariants) + ClaimsNamed(e.obligations)
    {
      invariants, ok := MergeInto(invariants, NormalizeAll(e.invariants));
      if !ok { return; }
      obligations, ok := MergeInto(obligations, NormalizeAll(e.obligations));
      if !ok { return; }
      claims, ok := MergeInto(claims, e.claims);
      if !ok { return; }
      var ofInvariants := GatherClaims(e.invariants);
      var ofObligations := GatherClaims(e.obligations);
      references := references + ofInvariants + ofObligations;
    }

    /** The actions, plan-shaped requirements and conditions one rule states. */
    method AddGoverned(e: Effect) returns (ok: bool)
      modifies this`permissions, this`prohibitions, this`roles, this`capabilities, this`gates, this`references, this`conditions
      ensures ok <==> FoldAll(AddRole, old(roles), e.roles).Some? && FoldAll(AddGate, old(gates), e.gates).Some?
                        && FoldAll(AddCondition, old(conditions), e.conditions).Some?
                        && forall c :: c in e.capabilities ==> KnownCapability(c)
      ensures ok ==> Some(roles) == FoldAll(AddRole, old(roles), e.roles) && Some(gates) == FoldAll(AddGate, old(gates), e.gates)
                       && Some(conditions) == FoldAll(AddCondition, old(conditions), e.conditions)
      ensures ok ==> capabilities == old(capabilities) + Elements(e.capabilities) && references == old(references) + GateClaims(e.gates)
                       && permissions == old(permissions) + Elements(e.permissions) && prohibitions == old(prohibitions) + Elements(e.prohibitions)
    {
      permissions := permissions + Elements(e.permissions);
      prohibitions := prohibitions + Elements(e.prohibitions);
      ok := AddEngineeringRequirements(e);
      if !ok { return; }
      ok := AddConditions(e.conditions);
    }

    /** The parts of a merged effect, where each part merges. */
    ghost predicate MergedParts(s: State, e: Effect)
      reads this
    {
      && Some(invariants) == MergeAgree(s.invariants, NormalizeAll(e.invariants))
      && Some(obligations) == MergeAgree(s.obligations, NormalizeAll(e.obligations))
      && Some(claims) == MergeAgree(s.claims, e.claims)
      && Some(roles) == FoldAll(AddRole, s.roles, e.roles)
      && Some(gates) == FoldAll(AddGate, s.gates, e.gates)
      && Some(conditions) == FoldAll(AddCondition, s.conditions, e.conditions)
      && (forall c :: c in e.capabilities ==> KnownCapability(c))
      && capabilities == s.capabilities + Elements(e.capabilities)
      && permissions == s.permissions + Elements(e.permissions)
      && prohibitions == s.prohibitions + Elements(e.prohibitions)
      && references == s.references + ClaimsNamed(e.invariants) + ClaimsNamed(e.obligations) + GateClaims(e.gates)
      && discharge == s.discharge + Elements(e.discharge)
    }

    lemma PartsMakeEffect(s: State, e: Effect)
      requires MergedParts(s, e)
      ensures AddEffect(s, e) == Some(So())
    {
    }

    /** `addEffect`. */
    method AddRuleEffect(e: Effect) returns (ok: bool)
      modifies this
      ensures ok <==> AddEffect(old(So()), e).Some?
      ensures ok ==> So() == AddEffect(old(So()), e).value
    {
      discharge := discharge + Elements(e.discharge);
      ghost var was := old(So());
      ok := AddStated(e);
      if !ok { return; }
      ok := AddGoverned(e);
      if ok { PartsMakeEffect(was, e); }
    }

    /** `addUnknownResolution`, for the facts whose value is unknown. */
    method AddUnknownFact(f: Fact) returns (ok: bool)
      modifies this`obligations, this`references
      ensures ok <==> AddUnknown(old(So()), f).Some?
      ensures ok ==> So() == AddUnknown(old(So()), f).value
    {
      ok := true;
      if f.value.FactUnknown? {
        ok := AddObligationRequirement(Uncertain(f.id), PolicyRequirement(ResolveUncertainty(f.key), [], false));
      }
    }

    method AddAcceptance(c: Criterion) returns (ok: bool)
      modifies this`obligations, this`references
      ensures ok <==> AddCriterion(old(So()), c).Some?
      ensures ok ==> So() == AddCriterion(old(So()), c).value
    {
      if c.trimmed.None? { return true; }
      var id := Acceptance(c.trimmed.value);
      var definition := Requirement(Prose(c.text), discharge, true);
      if id in obligations && obligations[id] != definition { return false; }
      assert obligations[id := definition] == obligations + map[id := definition];
      obligations := obligations[id := definition];
      references := references + discharge;
      return true;
    }

    /** `addAcceptanceObligations`. */
    method AddAcceptanceObligations(acceptance: seq<Id>, trimmed: map<Id, Id>) returns (ok: bool)
      modifies this`obligations, this`references
      ensures ok <==> FoldAll(AddCriterion, old(So()), Criteria(Listing(Elements(acceptance)), trimmed)).Some?
      ensures ok ==> So() == FoldAll(AddCriterion, old(So()), Criteria(Listing(Elements(acceptance)), trimmed)).value
    {
      ghost var was := So();
      var texts := Canonical(acceptance);
      ghost var criteria := Criteria(texts, trimmed);
      for i := 0 to |texts|
        invariant FoldAll(AddCriterion, was, criteria[..i]) == Some(So())
      {
        FoldNext(AddCriterion, was, criteria, i);
        ok := AddAcceptance(CriterionOf(texts[i], trimmed));
        if !ok {
          FailedStaysFailed(AddCriterion, was, criteria, i + 1);
          return;
        }
      }
      assert criteria[..|texts|] == criteria;
      return true;
    }

    method PermitsProhibited() returns (found: bool)
      ensures found <==> exists a :: a in permissions && a in prohibitions
    {
      var left := permissions;
      while left != {}
        invariant left <= permissions && forall a | a in permissions && a !in left :: a !in prohibitions
        decreases |left|
      {
        var action :| action in left;
        if action in prohibitions { return true; }
        left := left - {action};
      }
      return false;
    }

    method ReferencesDefined() returns (ok: bool)
      ensures ok <==> references <= claims.Keys
    {
      var left := references;
      while left != {}
        invariant left <= references && forall c | c in references && c !in left :: c in claims
        decreases |left|
      {
        var claim :| claim in left;
        if claim !in claims { return false; }
        left := left - {claim};
      }
      return true;
    }

    /** `validateReferences`; the claims the conditions name join the references it goes through. */
    method ValidateReferences() returns (ok: bool)
      modifies this`references
      ensures ok <==> ReferencesValid(old(So()))
      ensures old(references) <= references
    {
      var conflict := PermitsProhibited();
      if conflict { return false; }
      ghost var named := references;
      CollectConditionClaims();
      ok := ReferencesDefined();
      AllDefined(named, references, conditions, claims.Keys);
    }

    static lemma AllDefined(named: set<Id>, references: set<Id>, conditions: map<Action, set<Id>>, defined: set<Id>)
      requires forall c :: c in references <==> c in named || exists a :: a in conditions && c in conditions[a]
      ensures references <= defined <==> named <= defined && forall a | a in conditions :: conditions[a] <= defined
    {
      if references <= defined {
        forall a | a in conditions ensures conditions[a] <= defined {
          forall c | c in conditions[a] ensures c in defined { assert c in references; }
        }
      }
    }

    method CollectConditionClaims()
      modifies this`references
      ensures forall c :: c in references <==> c in old(references) || exists a :: a in conditions && c in conditions[a]
    {
      var left := conditions.Keys;
      while left != {}
        invariant left <= conditions.Keys
        invariant forall c :: c in references <==> c in old(references) || exists a :: a in conditions && a !in left && c in conditions[a]
        decreases |left|
      {
        var action :| action in left;
        references := references + conditions[action];
        left := left - {action};
      }
    }

    /** `validateMaterialDischarge`. */
    method ValidateMaterialDischarge() returns (ok: bool)
      ensures ok <==> MaterialDischarged(So())
    {
      if permissions == {} && conditions == map[] { return true; }
      var left := obligations.Keys;
      while left != {}
        invariant left <= obligations.Keys
        invariant forall id | id in obligations && id !in left :: obligations[id].material ==> obligations[id].claims != {}
        decreases |left|
      {
        var id :| id in left;
        if obligations[id].material && obligations[id].claims == {} { return false; }
        left := left - {id};
      }
      return true;
    }
  }

  /** `normalizedFacts`: refused on a foreign subject or a repeated id. */
  method NormalizedFacts(facts: seq<Fact>, subject: Subject) returns (sorted: seq<Fact>, ok: bool)
    ensures ok <==> FactsValid(facts, subject)
    ensures ok ==> sorted == SortedFacts(facts)
  {
    var byID: map<Id, Fact> := map[];
    sorted := [];
    for i := 0 to |facts|
      invariant byID == FactIndex(facts[..i])
      invariant forall id :: id in byID <==> exists k :: 0 <= k < i && facts[k].id == id
      invariant FactsValid(facts[..i], subject)
    {
      assert facts[..i + 1][..i] == facts[..i];
      if facts[i].subject != subject { return [], false; }
      if facts[i].id in byID { return [], false; }
      byID := byID[facts[i].id := facts[i]];
    }
    assert facts[..|facts|] == facts;
    KeysListed(byID);
    var ids := Listing(byID.Keys);
    for i := 0 to |ids|
      invariant sorted == Picked(byID, ids)[..i]
    {
      sorted := sorted + [byID[ids[i]]];
    }
    ok := true;
  }

  /** The effects of the rules that match, rule by rule in the order of their ids. */
  method MatchingRules(policy: Policy, facts: seq<Fact>) returns (effects: seq<Effect>)
    ensures effects == MatchingEffects(policy, facts)
  {
    KeysListed(policy.rules);
    var ids := Listing(policy.rules.Keys);
    effects := [];
    for i := 0 to |ids|
      invariant effects == Matching(policy.rules, ids[..i], facts)
    {
      assert ids[..i + 1][..i] == ids[..i];
      if !MatchesAny(policy.rules[ids[i]].when_, facts) { continue; }
      effects := effects + [policy.rules[ids[i]].effect];
    }
    assert ids[..|ids|] == ids;
  }

  method AddFacts(r: Resolution, facts: seq<Fact>) returns (ok: bool)
    modifies r
    ensures ok <==> FoldAll(AddUnknown, old(r.So()), facts).Some?
    ensures ok ==> r.So() == FoldAll(AddUnknown, old(r.So()), facts).value
  {
    ghost var was := r.So();
    for i := 0 to |facts|
      invariant FoldAll(AddUnknown, was, facts[..i]) == Some(r.So())
    {
      FoldNext(AddUnknown, was, facts, i);
      ok := r.AddUnknownFact(facts[i]);
      if !ok {
        FailedStaysFailed(AddUnknown, was, facts, i + 1);
        return;
      }
    }
    assert facts[..|facts|] == facts;
    ok := true;
  }

  method AddRules(r: Resolution, effects: seq<Effect>) returns (ok: bool)
    modifies r
    ensures ok <==> FoldAll(AddEffect, old(r.So()), effects).Some?
    ensures ok ==> r.So() == FoldAll(AddEffect, old(r.So()), effects).value
  {
    ghost var was := r.So();
    for i := 0 to |effects|
      invariant FoldAll(AddEffect, was, effects[..i]) == Some(r.So())
    {
      FoldNext(AddEffect, was, effects, i);
      ok := r.AddRuleEffect(effects[i]);
      if !ok {
        FailedStaysFailed(AddEffect, was, effects, i + 1);
        return;
      }
    }
    assert effects[..|effects|] == effects;
    ok := true;
  }

  /** Everything `Compile` adds, in its order. */
  method Resolve(r: Resolution, input: CompileInput, facts: seq<Fact>) returns (ok: bool)
    requires r.So() == NOTHING && facts == SortedFacts(input.facts)
    modifies r
    ensures ok <==> ResolvedState(input).Some?
    ensures ok ==> r.So() == ResolvedState(input).value
  {
    ok := AddFacts(r, facts);
    if !ok { return; }
    var effects := MatchingRules(input.policy, facts);
    ok := AddRules(r, effects);
    if !ok { return; }
    ok := r.AddAcceptanceObligations(input.acceptance, input.trimmed);
  }

  /** The refusals once everything is resolved. */
  method Holds(r: Resolution, input: CompileInput) returns (ok: bool)
    modifies r`references
    ensures ok <==> Accepts(input, old(r.So()))
  {
    ok := r.ValidateReferences();
    if !ok { return; }
    ok := r.ValidateMaterialDischarge();
    if input.previous.Some? && !(r.permissions <= input.previous.value.permissions) { ok := false; }
  }

  /** `Compile`: the contract, or a refusal. */
  method Compile(input: CompileInput) returns (contract: Option<Contract>)
    ensures contract == Compiled(input)
  {
    if !InputValid(input) { return None; }
    var facts, valid := NormalizedFacts(input.facts, input.subject);
    if !valid { return None; }
    var r := new Resolution();
    var ok := Resolve(r, input, facts);
    if !ok { return None; }
    ok := Holds(r, input);
    if !ok { return None; }
    var acceptance := Canonical(input.acceptance);
    var index := IndexFacts(input.facts);
    return Some(Contract(
      ObjectRevision(input.contractId.value, input.contractRevision.value),
      input.subject,
      ObjectRevision(input.policy.id, input.policy.revision),
      if input.previous.Some? then Some(input.previous.value.identity.revision) else None,
      acceptance, Listing(index.Keys),
      r.invariants, r.obligations, r.claims, r.permissions, r.prohibitions, r.conditions, r.roles, r.capabilities, r.gates));
  }

  method IndexFacts(facts: seq<Fact>) returns (index: map<Id, Fact>)
    ensures index == FactIndex(facts)
  {
    index := map[];
    for i := 0 to |facts|
      invariant index == FactIndex(facts[..i])
    {
      assert facts[..i + 1][..i] == facts[..i];
      index := index[facts[i].id := facts[i]];
    }
    assert facts[..|facts|] == facts;
  }
}
