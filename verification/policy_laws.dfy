/** Policy resolution is a join: order does not matter, and a further rule only strengthens. */
module PolicyLaws {
  import opened Ids
  import opened Vocabulary
  import opened Merging
  import opened Policies

  // ---------------------------------------------------------------- every kind of addition commutes

  predicate DutyKnown(d: RoleDuty) {
    SeparationKnown(d.separation) && !d.trust.UnknownTrust?
  }

  ghost predicate RolesKnown(roles: map<Role, RoleDuty>) {
    forall role | role in roles :: DutyKnown(roles[role])
  }

  predicate SeparationKnown(s: Option<Separation>) {
    s.Some? ==> KnownDimension(s.value.dimension)
  }

  lemma SeparationsJoin(x: Option<Separation>, a: Option<Separation>, b: Option<Separation>)
    requires SeparationKnown(x) && SeparationKnown(a) && SeparationKnown(b)
    ensures Separations(Separations(x, a), b) == Separations(Separations(x, b), a)
    ensures Separations(a, b) == Separations(b, a) && SeparationKnown(Separations(a, b))
  {
    if a.Some? && b.Some? {
      assert a.value.differentFrom + b.value.differentFrom == b.value.differentFrom + a.value.differentFrom;
      if x.Some? {
        assert x.value.differentFrom + a.value.differentFrom + b.value.differentFrom
            == x.value.differentFrom + b.value.differentFrom + a.value.differentFrom;
      }
    }
  }

  lemma MergeRolesJoins(x: RoleDuty, a: RoleDuty, b: RoleDuty)
    requires DutyKnown(x) && DutyKnown(a) && DutyKnown(b)
    ensures MergeRoles(MergeRoles(x, a), b) == MergeRoles(MergeRoles(x, b), a)
    ensures MergeRoles(a, b) == MergeRoles(b, a)
    ensures DutyKnown(MergeRoles(a, b))
  {
    assert x.capabilities + a.capabilities + b.capabilities == x.capabilities + b.capabilities + a.capabilities;
    assert a.capabilities + b.capabilities == b.capabilities + a.capabilities;
    SeparationsJoin(x.separation, a.separation, b.separation);
  }

  lemma RolePairCommutes(roles: map<Role, RoleDuty>, a: RoleRequirement, b: RoleRequirement)
    requires RolesKnown(roles)
    ensures Then(AddRole, AddRole(roles, a), b) == Then(AddRole, AddRole(roles, b), a)
  {
    if RoleKnown(a) && RoleKnown(b) {
      var first, second := NormalizeRole(a), NormalizeRole(b);
      if a.role == b.role {
        if a.role in roles {
          MergeRolesJoins(roles[a.role], first, second);
        } else {
          MergeRolesJoins(first, first, second);
        }
      }
      var left, right := Then(AddRole, AddRole(roles, a), b).value, Then(AddRole, AddRole(roles, b), a).value;
      assert left == right;
    }
  }

  lemma RolesCommute()
    ensures Commutes(AddRole, RolesKnown)
  {
    forall roles, a, b | RolesKnown(roles) ensures Then(AddRole, AddRole(roles, a), b) == Then(AddRole, AddRole(roles, b), a) {
      RolePairCommutes(roles, a, b);
    }
  }

  predicate AnyGates(gates: map<GateKey, set<Id>>) { true }

  predicate AnyConditions(conditions: map<Action, set<Id>>) { true }

  lemma GatePairCommutes(gates: map<GateKey, set<Id>>, a: GateRequirement, b: GateRequirement)
    ensures Then(AddGate, AddGate(gates, a), b) == Then(AddGate, AddGate(gates, b), a)
  {
    if !a.kind.NotAGate? && !b.kind.NotAGate? {
      var left, right := Then(AddGate, AddGate(gates, a), b).value, Then(AddGate, AddGate(gates, b), a).value;
      var key := GateKey(a.kind, a.action);
      assert left[key] == right[key];
      assert left == right;
    }
  }

  lemma GatesCommute()
    ensures Commutes(AddGate, AnyGates)
  {
    forall gates, a, b ensures Then(AddGate, AddGate(gates, a), b) == Then(AddGate, AddGate(gates, b), a) {
      GatePairCommutes(gates, a, b);
    }
  }

  lemma ConditionPairCommutes(conditions: map<Action, set<Id>>, a: AuthorityCondition, b: AuthorityCondition)
    ensures Then(AddCondition, AddCondition(conditions, a), b) == Then(AddCondition, AddCondition(conditions, b), a)
  {
    if Then(AddCondition, AddCondition(conditions, a), b).Some? && Then(AddCondition, AddCondition(conditions, b), a).Some? {
      assert Then(AddCondition, AddCondition(conditions, a), b).value == Then(AddCondition, AddCondition(conditions, b), a).value;
    }
  }

  lemma ConditionsCommute()
    ensures Commutes(AddCondition, AnyConditions)
  {
    forall conditions, a, b ensures Then(AddCondition, AddCondition(conditions, a), b) == Then(AddCondition, AddCondition(conditions, b), a) {
      ConditionPairCommutes(conditions, a, b);
    }
  }

  ghost predicate StateKnown(s: State) {
    RolesKnown(s.roles)
  }

  /** One rule's additions and then another's, component by component. */
  ghost function Both(s: State, a: Effect, b: Effect): Option<State> {
    var invariants := MergeNext(MergeAgree(s.invariants, NormalizeAll(a.invariants)), NormalizeAll(b.invariants));
    var obligations := MergeNext(MergeAgree(s.obligations, NormalizeAll(a.obligations)), NormalizeAll(b.obligations));
    var claims := MergeNext(MergeAgree(s.claims, a.claims), b.claims);
    var roles := FoldTwice(AddRole, s.roles, a.roles, b.roles);
    var gates := FoldTwice(AddGate, s.gates, a.gates, b.gates);
    var conditions := FoldTwice(AddCondition, s.conditions, a.conditions, b.conditions);
    if invariants.None? || obligations.None? || claims.None? || roles.None? || gates.None? || conditions.None? then None
    else if !(forall c :: c in a.capabilities ==> KnownCapability(c)) || !(forall c :: c in b.capabilities ==> KnownCapability(c)) then None
    else Some(State(
      invariants.value, obligations.value, claims.value,
      s.permissions + Elements(a.permissions) + Elements(b.permissions),
      s.prohibitions + Elements(a.prohibitions) + Elements(b.prohibitions), conditions.value,
      s.references + ClaimsNamed(a.invariants) + ClaimsNamed(a.obligations) + GateClaims(a.gates)
        + ClaimsNamed(b.invariants) + ClaimsNamed(b.obligations) + GateClaims(b.gates),
      s.discharge + Elements(a.discharge) + Elements(b.discharge),
      roles.value, s.capabilities + Elements(a.capabilities) + Elements(b.capabilities), gates.value))
  }

  lemma OneThenTheOther(s: State, a: Effect, b: Effect)
    ensures Then(AddEffect, AddEffect(s, a), b) == Both(s, a, b)
  {
  }

  lemma RequirementsEither(s: State, a: Effect, b: Effect)
    ensures MergeNext(MergeAgree(s.invariants, NormalizeAll(a.invariants)), NormalizeAll(b.invariants))
         == MergeNext(MergeAgree(s.invariants, NormalizeAll(b.invariants)), NormalizeAll(a.invariants))
    ensures MergeNext(MergeAgree(s.obligations, NormalizeAll(a.obligations)), NormalizeAll(b.obligations))
         == MergeNext(MergeAgree(s.obligations, NormalizeAll(b.obligations)), NormalizeAll(a.obligations))
    ensures MergeNext(MergeAgree(s.claims, a.claims), b.claims) == MergeNext(MergeAgree(s.claims, b.claims), a.claims)
  {
    MergeCommutes(s.invariants, NormalizeAll(a.invariants), NormalizeAll(b.invariants));
    MergeCommutes(s.obligations, NormalizeAll(a.obligations), NormalizeAll(b.obligations));
    MergeCommutes(s.claims, a.claims, b.claims);
  }

  lemma GovernedEither(s: State, a: Effect, b: Effect)
    requires StateKnown(s)
    ensures FoldTwice(AddRole, s.roles, a.roles, b.roles) == FoldTwice(AddRole, s.roles, b.roles, a.roles)
    ensures FoldTwice(AddGate, s.gates, a.gates, b.gates) == FoldTwice(AddGate, s.gates, b.gates, a.gates)
    ensures FoldTwice(AddCondition, s.conditions, a.conditions, b.conditions) == FoldTwice(AddCondition, s.conditions, b.conditions, a.conditions)
  {
    RolesCommute();
    EitherFirst(AddRole, RolesKnown, s.roles, a.roles, b.roles);
    GatesCommute();
    EitherFirst(AddGate, AnyGates, s.gates, a.gates, b.gates);
    ConditionsCommute();
    EitherFirst(AddCondition, AnyConditions, s.conditions, a.conditions, b.conditions);
  }

  lemma EffectPairCommutes(s: State, a: Effect, b: Effect)
    requires StateKnown(s)
    ensures Then(AddEffect, AddEffect(s, a), b) == Then(AddEffect, AddEffect(s, b), a)
  {
    OneThenTheOther(s, a, b);
    OneThenTheOther(s, b, a);
    BothEither(s, a, b);
  }

  lemma BothEither(s: State, a: Effect, b: Effect)
    requires StateKnown(s)
    ensures Both(s, a, b) == Both(s, b, a)
  {
    RequirementsEither(s, a, b);
    GovernedEither(s, a, b);
    SetsCommute(s, a, b);
  }

  lemma SetsCommute(s: State, a: Effect, b: Effect)
    ensures s.permissions + Elements(a.permissions) + Elements(b.permissions) == s.permissions + Elements(b.permissions) + Elements(a.permissions)
    ensures s.prohibitions + Elements(a.prohibitions) + Elements(b.prohibitions) == s.prohibitions + Elements(b.prohibitions) + Elements(a.prohibitions)
    ensures s.references + ClaimsNamed(a.invariants) + ClaimsNamed(a.obligations) + GateClaims(a.gates)
              + ClaimsNamed(b.invariants) + ClaimsNamed(b.obligations) + GateClaims(b.gates)
         == s.references + ClaimsNamed(b.invariants) + ClaimsNamed(b.obligations) + GateClaims(b.gates)
              + ClaimsNamed(a.invariants) + ClaimsNamed(a.obligations) + GateClaims(a.gates)
    ensures s.discharge + Elements(a.discharge) + Elements(b.discharge) == s.discharge + Elements(b.discharge) + Elements(a.discharge)
    ensures s.capabilities + Elements(a.capabilities) + Elements(b.capabilities) == s.capabilities + Elements(b.capabilities) + Elements(a.capabilities)
  {
  }

  lemma EffectStaysKnown(s: State, e: Effect)
    requires StateKnown(s) && AddEffect(s, e).Some?
    ensures StateKnown(AddEffect(s, e).value)
  {
    RolesCommute();
    FoldKeeps(AddRole, RolesKnown, s.roles, e.roles);
  }

  lemma {:induction false} EffectsCommute()
    ensures Commutes(AddEffect, StateKnown)
  {
    forall s, e | StateKnown(s) && AddEffect(s, e).Some? ensures StateKnown(AddEffect(s, e).value) { EffectStaysKnown(s, e); }
    forall s, a, b | StateKnown(s) ensures Then(AddEffect, AddEffect(s, a), b) == Then(AddEffect, AddEffect(s, b), a) {
      EffectPairCommutes(s, a, b);
    }
  }

  /** The matching rules, processed in any order, succeed or fail alike and leave the same state. */
  lemma {:induction false} RulesInAnyOrder(s: State, effects: seq<Effect>, reordered: seq<Effect>)
    requires StateKnown(s) && multiset(effects) == multiset(reordered)
    ensures FoldAll(AddEffect, s, effects) == FoldAll(AddEffect, s, reordered)
  {
    EffectsCommute();
    AnyOrder(AddEffect, StateKnown, s, effects, reordered);
  }
}
