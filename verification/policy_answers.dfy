/** What a compiled contract says, clause by clause, in terms of the rules that apply and nothing the compiler computes. */
module PolicyAnswers {
  import opened Ids
  import opened Vocabulary
  import opened Merging
  import opened Policies
  import opened PolicyLaws
  import opened ContractLaws

  // ---------------------------------------------------------------- which rules apply

  /** A rule that applies states the effect. */
  ghost predicate Ruled(input: CompileInput, e: Effect) {
    exists id :: id in input.policy.rules && Applies(input.facts, input.policy.rules[id].when_) && input.policy.rules[id].effect == e
  }

  lemma {:induction false} SortedFactsAre(facts: seq<Fact>, subject: Subject, f: Fact)
    requires FactsValid(facts, subject)
    ensures f in SortedFacts(facts) <==> f in facts
  {
    var index := FactIndex(facts);
    var ids := Listing(index.Keys);
    KeysListed(index);
    ListingLists(index.Keys);
    FactIndexHolds(facts, subject, f);
    FactIndexIds(facts);
    if f in facts {
      assert f.id in Elements(ids);
      var i :| 0 <= i < |ids| && ids[i] == f.id;
      assert SortedFacts(facts)[i] == f;
    }
    if f in SortedFacts(facts) {
      var i :| 0 <= i < |ids| && SortedFacts(facts)[i] == f;
    }
  }

  lemma AppliesExactly(facts: seq<Fact>, subject: Subject, c: Condition)
    requires FactsValid(facts, subject)
    ensures MatchesAny(c, SortedFacts(facts)) <==> Applies(facts, c)
  {
    forall f ensures f in SortedFacts(facts) <==> f in facts { SortedFactsAre(facts, subject, f); }
    MatchesExactly(c, SortedFacts(facts));
  }

  lemma {:induction false} MatchingAre(rules: map<Id, Rule>, ids: seq<Id>, facts: seq<Fact>, e: Effect)
    requires forall id | id in ids :: id in rules
    ensures e in Matching(rules, ids, facts) <==> exists id :: id in ids && MatchesAny(rules[id].when_, facts) && rules[id].effect == e
  {
    if ids != [] {
      MatchingAre(rules, ids[..|ids| - 1], facts, e);
      assert forall id :: id in ids <==> id in ids[..|ids| - 1] || id == ids[|ids| - 1];
    }
  }

  /** The effects compiled are exactly those of the rules that apply. */
  lemma {:induction false} EffectsExactly(input: CompileInput, e: Effect)
    requires FactsValid(input.facts, input.subject)
    ensures e in MatchingEffects(input.policy, SortedFacts(input.facts)) <==> Ruled(input, e)
  {
    var rules, facts := input.policy.rules, SortedFacts(input.facts);
    KeysListed(rules);
    ListingLists(rules.Keys);
    MatchingAre(rules, Listing(rules.Keys), facts, e);
    forall id ensures id in Listing(rules.Keys) <==> id in rules { assert id in Listing(rules.Keys) <==> id in Elements(Listing(rules.Keys)); }
    forall id | id in rules ensures MatchesAny(rules[id].when_, facts) <==> Applies(input.facts, rules[id].when_) {
      AppliesExactly(input.facts, input.subject, rules[id].when_);
    }
  }

  // ---------------------------------------------------------------- the parts of a fold of effects

  ghost function AllRoles(effects: seq<Effect>): seq<RoleRequirement> {
    if effects == [] then [] else AllRoles(effects[..|effects| - 1]) + effects[|effects| - 1].roles
  }

  ghost function AllGates(effects: seq<Effect>): seq<GateRequirement> {
    if effects == [] then [] else AllGates(effects[..|effects| - 1]) + effects[|effects| - 1].gates
  }

  ghost function AllConditions(effects: seq<Effect>): seq<AuthorityCondition> {
    if effects == [] then [] else AllConditions(effects[..|effects| - 1]) + effects[|effects| - 1].conditions
  }

  lemma {:induction false} AllAre(effects: seq<Effect>)
    ensures forall r :: r in AllRoles(effects) <==> exists e :: e in effects && r in e.roles
    ensures forall g :: g in AllGates(effects) <==> exists e :: e in effects && g in e.gates
    ensures forall c :: c in AllConditions(effects) <==> exists e :: e in effects && c in e.conditions
  {
    if effects != [] {
      AllAre(effects[..|effects| - 1]);
      assert forall e :: e in effects <==> e in effects[..|effects| - 1] || e == effects[|effects| - 1];
    }
  }

  lemma {:induction false} PartsFold(s: State, effects: seq<Effect>)
    requires FoldAll(AddEffect, s, effects).Some?
    ensures var t := FoldAll(AddEffect, s, effects).value;
            && FoldAll(AddRole, s.roles, AllRoles(effects)) == Some(t.roles)
            && FoldAll(AddGate, s.gates, AllGates(effects)) == Some(t.gates)
            && FoldAll(AddCondition, s.conditions, AllConditions(effects)) == Some(t.conditions)
  {
    if effects != [] {
      var before, e := effects[..|effects| - 1], effects[|effects| - 1];
      PartsFold(s, before);
      FoldConcat(AddRole, s.roles, AllRoles(before), e.roles);
      FoldConcat(AddGate, s.gates, AllGates(before), e.gates);
      FoldConcat(AddCondition, s.conditions, AllConditions(before), e.conditions);
    }
  }

  // ---------------------------------------------------------------- sets

  /** Each of the four plain sets is what was there and what the effects state. */
  lemma {:induction false} SetsFrom(s: State, effects: seq<Effect>)
    requires FoldAll(AddEffect, s, effects).Some?
    ensures var t := FoldAll(AddEffect, s, effects).value;
            && (forall a :: a in t.permissions <==> a in s.permissions || exists e :: e in effects && a in e.permissions)
            && (forall a :: a in t.prohibitions <==> a in s.prohibitions || exists e :: e in effects && a in e.prohibitions)
            && (forall c :: c in t.capabilities <==> c in s.capabilities || exists e :: e in effects && c in e.capabilities)
            && (forall c :: c in t.discharge <==> c in s.discharge || exists e :: e in effects && c in e.discharge)
  {
    if effects != [] {
      SetsFrom(s, effects[..|effects| - 1]);
      assert forall e :: e in effects <==> e in effects[..|effects| - 1] || e == effects[|effects| - 1];
    }
  }

  // ---------------------------------------------------------------- maps

  /** What a contract requires under an identity says what the rule said, and asks the claims it asked. */
  ghost predicate Says(r: Requirement, stated: PolicyRequirement) {
    && r.statement == stated.statement && r.material == stated.material
    && forall c :: c in r.claims <==> c in stated.claims
  }

  lemma RequirementsMerged(m: map<ReqId, Requirement>, a: map<ReqId, PolicyRequirement>, id: ReqId)
    requires MergeAgree(m, NormalizeAll(a)).Some?
    ensures var n := MergeAgree(m, NormalizeAll(a)).value;
            && (id in n <==> id in m || id in a)
            && (id in m ==> n[id] == m[id])
            && (id in a ==> Says(n[id], a[id]))
  {
    if id in a { assert id in NormalizeAll(a) && NormalizeAll(a)[id] == Normalize(a[id]); }
  }

  lemma {:induction false} InvariantsFrom(s: State, effects: seq<Effect>, id: ReqId)
    requires FoldAll(AddEffect, s, effects).Some?
    ensures var t := FoldAll(AddEffect, s, effects).value;
            && (id in t.invariants <==> id in s.invariants || exists e :: e in effects && id in e.invariants)
            && (id in s.invariants ==> t.invariants[id] == s.invariants[id])
            && forall e | e in effects && id in e.invariants :: Says(t.invariants[id], e.invariants[id])
  {
    if effects != [] {
      var before, e := effects[..|effects| - 1], effects[|effects| - 1];
      InvariantsFrom(s, before, id);
      RequirementsMerged(FoldAll(AddEffect, s, before).value.invariants, e.invariants, id);
      assert forall x :: x in effects <==> x in before || x == e;
    }
  }

  lemma {:induction false} ObligationsFrom(s: State, effects: seq<Effect>, id: ReqId)
    requires FoldAll(AddEffect, s, effects).Some?
    ensures var t := FoldAll(AddEffect, s, effects).value;
            && (id in t.obligations <==> id in s.obligations || exists e :: e in effects && id in e.obligations)
            && (id in s.obligations ==> t.obligations[id] == s.obligations[id])
            && forall e | e in effects && id in e.obligations :: Says(t.obligations[id], e.obligations[id])
  {
    if effects != [] {
      var before, e := effects[..|effects| - 1], effects[|effects| - 1];
      ObligationsFrom(s, before, id);
      RequirementsMerged(FoldAll(AddEffect, s, before).value.obligations, e.obligations, id);
      assert forall x :: x in effects <==> x in before || x == e;
    }
  }

  lemma {:induction false} ClaimsFrom(s: State, effects: seq<Effect>, id: Id)
    requires FoldAll(AddEffect, s, effects).Some?
    ensures var t := FoldAll(AddEffect, s, effects).value;
            && (id in t.claims <==> id in s.claims || exists e :: e in effects && id in e.claims)
            && forall e | e in effects && id in e.claims :: t.claims[id] == e.claims[id]
  {
    if effects != [] {
      ClaimsFrom(s, effects[..|effects| - 1], id);
      assert forall e :: e in effects <==> e in effects[..|effects| - 1] || e == effects[|effects| - 1];
    }
  }

  lemma {:induction false} ConditionsFrom(stated: seq<AuthorityCondition>, a: Action)
    requires FoldAll(AddCondition, map[], stated).Some?
    ensures var t := FoldAll(AddCondition, map[], stated).value;
            && (a in t <==> exists c :: c in stated && c.action == a)
            && forall c | c in stated && c.action == a :: forall x :: x in t[a] <==> x in c.claims
  {
    if stated != [] {
      ConditionsFrom(stated[..|stated| - 1], a);
      assert forall c :: c in stated <==> c in stated[..|stated| - 1] || c == stated[|stated| - 1];
    }
  }

  lemma {:induction false} GatesFrom(stated: seq<GateRequirement>, kind: GateKind, action: Option<Action>)
    requires FoldAll(AddGate, map[], stated).Some?
    ensures var t, key := FoldAll(AddGate, map[], stated).value, GateKey(kind, action);
            && (key in t <==> exists g :: g in stated && g.kind == kind && g.action == action)
            && (key in t ==> forall c :: c in t[key] <==> exists g :: g in stated && g.kind == kind && g.action == action && c in g.claims)
  {
    if stated != [] {
      GatesFrom(stated[..|stated| - 1], kind, action);
      assert forall g :: g in stated <==> g in stated[..|stated| - 1] || g == stated[|stated| - 1];
    }
  }

  // ---------------------------------------------------------------- roles

  ghost predicate Asks(required: seq<RoleRequirement>, role: Role, r: RoleRequirement) {
    r in required && r.role == role
  }

  ghost predicate Separates(required: seq<RoleRequirement>, role: Role, r: RoleRequirement) {
    Asks(required, role, r) && r.independence.Some?
  }

  lemma AsksMore(required: seq<RoleRequirement>, role: Role)
    requires required != []
    ensures forall r :: Asks(required, role, r) <==> Asks(required[..|required| - 1], role, r) || (r == required[|required| - 1] && r.role == role)
    ensures forall r :: Separates(required, role, r) <==>
              Separates(required[..|required| - 1], role, r) || (r == required[|required| - 1] && r.role == role && r.independence.Some?)
  {
    assert forall r :: r in required <==> r in required[..|required| - 1] || r == required[|required| - 1];
  }

  /** The capabilities any of the requirements asks, and the strongest trust. */
  ghost predicate AsksTogether(required: seq<RoleRequirement>, role: Role, d: RoleDuty) {
    && (forall c :: c in d.capabilities <==> exists r :: Asks(required, role, r) && c in r.capabilities)
    && (d.trust == Protected <==> exists r :: Asks(required, role, r) && r.trust == Protected)
    && (d.trust == Unstated <==> forall r | Asks(required, role, r) :: r.trust == Unstated)
    && !d.trust.UnknownTrust?
  }

  /** Every peer any of them names, in the strongest of their dimensions; a human may stand in only where all of them permit it. */
  ghost predicate SeparatesTogether(required: seq<RoleRequirement>, role: Role, separation: Option<Separation>) {
    && (separation.None? <==> forall r :: !Separates(required, role, r))
    && (separation.Some? ==>
          && (forall p :: p in separation.value.differentFrom <==>
                exists r :: Separates(required, role, r) && p in r.independence.value.differentFrom)
          && (separation.value.humanSubstitutionPermitted <==>
                forall r | Separates(required, role, r) :: r.independence.value.humanSubstitutionPermitted)
          && (exists r :: Separates(required, role, r) && r.independence.value.dimension == separation.value.dimension)
          && forall r | Separates(required, role, r) ::
               DimensionStrength(r.independence.value.dimension) <= DimensionStrength(separation.value.dimension))
  }

  lemma {:induction false} RolesNamed(required: seq<RoleRequirement>, role: Role)
    requires FoldAll(AddRole, map[], required).Some?
    ensures role in FoldAll(AddRole, map[], required).value <==> exists r :: Asks(required, role, r)
  {
    if required != [] {
      RolesNamed(required[..|required| - 1], role);
      AsksMore(required, role);
    }
  }

  lemma {:induction false} DutiesFrom(required: seq<RoleRequirement>, role: Role)
    requires FoldAll(AddRole, map[], required).Some? && role in FoldAll(AddRole, map[], required).value
    ensures AsksTogether(required, role, FoldAll(AddRole, map[], required).value[role])
  {
    var before, last := required[..|required| - 1], required[|required| - 1];
    var roles := FoldAll(AddRole, map[], before).value;
    AsksMore(required, role);
    RolesNamed(before, role);
    if role in roles { DutiesFrom(before, role); }
  }

  lemma SeparatesSame(before: seq<RoleRequirement>, required: seq<RoleRequirement>, role: Role, separation: Option<Separation>)
    requires SeparatesTogether(before, role, separation) && forall r :: Separates(before, role, r) <==> Separates(required, role, r)
    ensures SeparatesTogether(required, role, separation)
  {
  }

  lemma SeparatesFirst(required: seq<RoleRequirement>, role: Role, last: RoleRequirement)
    requires last.independence.Some? && forall r :: Separates(required, role, r) <==> r == last
    ensures SeparatesTogether(required, role, NormalizeRole(last).separation)
  {
    assert Separates(required, role, last);
  }

  lemma SeparatesBoth(before: seq<RoleRequirement>, required: seq<RoleRequirement>, role: Role, separation: Option<Separation>, last: RoleRequirement)
    requires SeparatesTogether(before, role, separation) && separation.Some? && last.independence.Some?
    requires forall r :: Separates(required, role, r) <==> Separates(before, role, r) || r == last
    ensures SeparatesTogether(required, role, Separations(separation, NormalizeRole(last).separation))
  {
    var r :| Separates(before, role, r) && r.independence.value.dimension == separation.value.dimension;
    assert Separates(required, role, r) && Separates(required, role, last);
  }

  lemma {:induction false} SeparatesOneMore(required: seq<RoleRequirement>, role: Role, separation: Option<Separation>)
    requires required != [] && SeparatesTogether(required[..|required| - 1], role, separation)
    ensures var last := required[|required| - 1];
            SeparatesTogether(required, role, if last.role == role then Separations(separation, NormalizeRole(last).separation) else separation)
  {
    var before, last := required[..|required| - 1], required[|required| - 1];
    AsksMore(required, role);
    if last.role != role || last.independence.None? {
      SeparatesSame(before, required, role, separation);
    } else if separation.None? {
      SeparatesFirst(required, role, last);
    } else {
      SeparatesBoth(before, required, role, separation, last);
    }
  }

  lemma {:induction false} SeparationsFrom(required: seq<RoleRequirement>, role: Role)
    requires FoldAll(AddRole, map[], required).Some? && role in FoldAll(AddRole, map[], required).value
    ensures SeparatesTogether(required, role, FoldAll(AddRole, map[], required).value[role].separation)
  {
    var before := required[..|required| - 1];
    var roles := FoldAll(AddRole, map[], before).value;
    RolesNamed(before, role);
    if role in roles {
      SeparationsFrom(before, role);
      SeparatesOneMore(required, role, roles[role].separation);
    } else {
      assert SeparatesTogether(before, role, None);
      SeparatesOneMore(required, role, None);
    }
  }

  // ---------------------------------------------------------------- what the facts and the criteria add

  lemma {:induction false} FactsAdd(facts: seq<Fact>, id: ReqId)
    requires FoldAll(AddUnknown, NOTHING, facts).Some?
    ensures var t := FoldAll(AddUnknown, NOTHING, facts).value;
            && t == NOTHING.(obligations := t.obligations, references := t.references)
            && (id in t.obligations <==> exists f :: f in facts && f.value == FactUnknown && id == Uncertain(f.id))
            && forall f | f in facts && f.value == FactUnknown && id == Uncertain(f.id) ::
                 t.obligations[id] == Requirement(ResolveUncertainty(f.key), {}, false)
  {
    if facts != [] {
      FactsAdd(facts[..|facts| - 1], id);
      assert forall f :: f in facts <==> f in facts[..|facts| - 1] || f == facts[|facts| - 1];
    }
  }

  /** What the rules come to, as the fold of the effects of the rules that apply. */
  lemma RuledFrom(input: CompileInput) returns (known: State, effects: seq<Effect>)
    requires FactsValid(input.facts, input.subject) && RuledState(input).Some?
    ensures FoldAll(AddUnknown, NOTHING, SortedFacts(input.facts)) == Some(known)
    ensures known == NOTHING.(obligations := known.obligations, references := known.references)
    ensures FoldAll(AddEffect, known, effects) == RuledState(input)
    ensures forall e :: e in effects <==> Ruled(input, e)
  {
    var facts := SortedFacts(input.facts);
    effects := MatchingEffects(input.policy, facts);
    known := FoldAll(AddUnknown, NOTHING, facts).value;
    FactsAdd(facts, Stated(0));
    forall e ensures e in effects <==> Ruled(input, e) { EffectsExactly(input, e); }
  }

  // ---------------------------------------------------------------- what the rules come to

  /** Exactly the actions and capabilities that rules which apply state. */
  ghost predicate ActionsRuled(input: CompileInput, permissions: set<Action>, prohibitions: set<Action>, capabilities: set<Capability>) {
    && (forall a :: a in permissions <==> exists e :: Ruled(input, e) && a in e.permissions)
    && (forall a :: a in prohibitions <==> exists e :: Ruled(input, e) && a in e.prohibitions)
    && (forall x :: x in capabilities <==> exists e :: Ruled(input, e) && x in e.capabilities)
  }

  lemma ActionsFollow(input: CompileInput)
    requires FactsValid(input.facts, input.subject) && RuledState(input).Some?
    ensures var s := RuledState(input).value; ActionsRuled(input, s.permissions, s.prohibitions, s.capabilities)
  {
    var known, effects := RuledFrom(input);
    SetsFrom(known, effects);
  }

  /** Exactly the claims that rules which apply define, each as every one of them defines it. */
  ghost predicate ClaimsRuled(input: CompileInput, claims: map<Id, RequiredClaim>) {
    && (forall id :: id in claims <==> exists e :: Ruled(input, e) && id in e.claims)
    && forall e, id | Ruled(input, e) && id in e.claims :: claims[id] == e.claims[id]
  }

  lemma ClaimsFollow(input: CompileInput)
    requires FactsValid(input.facts, input.subject) && RuledState(input).Some?
    ensures ClaimsRuled(input, RuledState(input).value.claims)
  {
    var known, effects := RuledFrom(input);
    var claims := RuledState(input).value.claims;
    forall id ensures id in claims <==> exists e :: Ruled(input, e) && id in e.claims
              ensures forall e | Ruled(input, e) && id in e.claims :: claims[id] == e.claims[id]
    {
      ClaimsFrom(known, effects, id);
    }
  }

  /** Exactly the invariants that rules which apply state, each saying what they say. */
  ghost predicate InvariantsRuled(input: CompileInput, invariants: map<ReqId, Requirement>) {
    && (forall id :: id in invariants <==> exists e :: Ruled(input, e) && id in e.invariants)
    && forall e, id | Ruled(input, e) && id in e.invariants :: Says(invariants[id], e.invariants[id])
  }

  lemma InvariantsFollow(input: CompileInput)
    requires FactsValid(input.facts, input.subject) && RuledState(input).Some?
    ensures InvariantsRuled(input, RuledState(input).value.invariants)
  {
    var known, effects := RuledFrom(input);
    var invariants := RuledState(input).value.invariants;
    forall id ensures id in invariants <==> exists e :: Ruled(input, e) && id in e.invariants
              ensures forall e | Ruled(input, e) && id in e.invariants :: Says(invariants[id], e.invariants[id])
    {
      InvariantsFrom(known, effects, id);
    }
  }

  /** An action has a condition exactly when a rule that applies states one, for exactly the claims it names. */
  ghost predicate ConditionsRuled(input: CompileInput, conditions: map<Action, set<Id>>) {
    && (forall a :: a in conditions <==> exists e, k :: Ruled(input, e) && k in e.conditions && k.action == a)
    && forall e, k | Ruled(input, e) && k in e.conditions :: forall x :: x in conditions[k.action] <==> x in k.claims
  }

  lemma ConditionsFollow(input: CompileInput)
    requires FactsValid(input.facts, input.subject) && RuledState(input).Some?
    ensures ConditionsRuled(input, RuledState(input).value.conditions)
  {
    var known, effects := RuledFrom(input);
    PartsFold(known, effects);
    AllAre(effects);
    forall k | k in AllConditions(effects)
      ensures k.action in RuledState(input).value.conditions && forall x :: x in RuledState(input).value.conditions[k.action] <==> x in k.claims
    {
      ConditionsFrom(AllConditions(effects), k.action);
    }
    forall a | a in RuledState(input).value.conditions ensures exists k :: k in AllConditions(effects) && k.action == a {
      ConditionsFrom(AllConditions(effects), a);
    }
  }

  /** A rule that applies asks for the gate. */
  ghost predicate GateAsked(input: CompileInput, key: GateKey, g: GateRequirement) {
    g.kind == key.kind && g.action == key.action && exists e :: Ruled(input, e) && g in e.gates
  }

  /** A gate is required exactly when a rule that applies asks for it, for all the claims any of them names under it. */
  ghost predicate GateRuled(input: CompileInput, gates: map<GateKey, set<Id>>, key: GateKey) {
    && (key in gates <==> exists g :: GateAsked(input, key, g))
    && (key in gates ==> forall x :: x in gates[key] <==> exists g :: GateAsked(input, key, g) && x in g.claims)
  }

  lemma {:induction false} GateFollows(input: CompileInput, stated: seq<GateRequirement>, key: GateKey)
    requires forall g :: g in stated <==> exists e :: Ruled(input, e) && g in e.gates
    requires FoldAll(AddGate, map[], stated).Some?
    ensures GateRuled(input, FoldAll(AddGate, map[], stated).value, key)
  {
    GatesFrom(stated, key.kind, key.action);
    forall g ensures GateAsked(input, key, g) <==> g in stated && g.kind == key.kind && g.action == key.action {}
  }

  lemma GatesFollow(input: CompileInput, key: GateKey)
    requires FactsValid(input.facts, input.subject) && RuledState(input).Some?
    ensures GateRuled(input, RuledState(input).value.gates, key)
  {
    var known, effects := RuledFrom(input);
    PartsFold(known, effects);
    AllAre(effects);
    GateFollows(input, AllGates(effects), key);
  }

  /** The requirements on a role are those of the rules that apply, taken together. */
  ghost predicate RolesRuled(input: CompileInput, required: seq<RoleRequirement>, roles: map<Role, RoleDuty>) {
    && (forall r :: r in required <==> exists e :: Ruled(input, e) && r in e.roles)
    && (forall role :: role in roles <==> exists r :: Asks(required, role, r))
    && forall role | role in roles :: AsksTogether(required, role, roles[role]) && SeparatesTogether(required, role, roles[role].separation)
  }

  lemma RolesFollow(input: CompileInput) returns (required: seq<RoleRequirement>)
    requires FactsValid(input.facts, input.subject) && RuledState(input).Some?
    ensures RolesRuled(input, required, RuledState(input).value.roles)
  {
    var known, effects := RuledFrom(input);
    PartsFold(known, effects);
    AllAre(effects);
    required := AllRoles(effects);
    forall role ensures role in RuledState(input).value.roles <==> exists r :: Asks(required, role, r) { RolesNamed(required, role); }
    forall role | role in RuledState(input).value.roles
      ensures AsksTogether(required, role, RuledState(input).value.roles[role])
      ensures SeparatesTogether(required, role, RuledState(input).value.roles[role].separation)
    {
      DutiesFrom(required, role);
      SeparationsFrom(required, role);
    }
  }

  /** What discharges a criterion: every claim a rule that applies says acceptance takes. */
  ghost predicate Discharges(input: CompileInput, claim: Id) {
    exists e :: Ruled(input, e) && claim in e.discharge
  }

  lemma DischargeFollows(input: CompileInput)
    requires FactsValid(input.facts, input.subject) && RuledState(input).Some?
    ensures forall claim :: claim in RuledState(input).value.discharge <==> Discharges(input, claim)
  {
    var known, effects := RuledFrom(input);
    SetsFrom(known, effects);
  }

  /** The obligation is that of an unknown fact. */
  ghost predicate Unresolved(input: CompileInput, id: ReqId, f: Fact) {
    f in input.facts && f.value == FactUnknown && id == Uncertain(f.id)
  }

  /** What rules which apply state under the identity, and what an unknown fact leaves to resolve. */
  lemma ObligationsFollow(input: CompileInput, id: ReqId)
    requires FactsValid(input.facts, input.subject) && RuledState(input).Some?
    ensures var m := RuledState(input).value.obligations;
            && (id in m <==> (exists e :: Ruled(input, e) && id in e.obligations) || exists f :: Unresolved(input, id, f))
            && (forall e | Ruled(input, e) && id in e.obligations :: Says(m[id], e.obligations[id]))
            && forall f | Unresolved(input, id, f) :: m[id] == Requirement(ResolveUncertainty(f.key), {}, false)
  {
    var known, effects := RuledFrom(input);
    ObligationsFrom(known, effects, id);
    FactsAdd(SortedFacts(input.facts), id);
    forall f ensures Unresolved(input, id, f) <==> f in SortedFacts(input.facts) && f.value == FactUnknown && id == Uncertain(f.id) {
      SortedFactsAre(input.facts, input.subject, f);
    }
  }

  /** A criterion that is not blank has this identity. */
  ghost predicate Asked(input: CompileInput, id: ReqId, text: Id) {
    text in input.acceptance && text in input.trimmed && id == Acceptance(input.trimmed[text])
  }

  /** Each obligation says what its origin says: a rule, an unknown fact or a criterion. */
  ghost predicate ObligationRuled(input: CompileInput, obligations: map<ReqId, Requirement>, id: ReqId) {
    && (id in obligations <==>
          || (exists e :: Ruled(input, e) && id in e.obligations)
          || (exists f :: Unresolved(input, id, f))
          || (exists text :: Asked(input, id, text)))
    && (forall e | Ruled(input, e) && id in e.obligations :: Says(obligations[id], e.obligations[id]))
    && (forall f | Unresolved(input, id, f) :: obligations[id] == Requirement(ResolveUncertainty(f.key), {}, false))
    && forall text | Asked(input, id, text) ::
         && obligations[id].statement == Prose(text) && obligations[id].material
         && forall claim :: claim in obligations[id].claims <==> Discharges(input, claim)
  }

  lemma ObligationsResolved(input: CompileInput, id: ReqId)
    requires FactsValid(input.facts, input.subject) && ResolvedState(input).Some?
    ensures ObligationRuled(input, ResolvedState(input).value.obligations, id)
  {
    ResolvedFromRuled(input);
    ObligationsFollow(input, id);
    if id in RuledState(input).value.obligations { RuledObligation(input, id); }
    if id in ResolvedState(input).value.obligations && id !in RuledState(input).value.obligations {
      ResolvedObligation(input, id);
      var text :| text in input.acceptance && text in input.trimmed && id == Acceptance(input.trimmed[text]);
      assert Asked(input, id, text);
    }
    DischargeFollows(input);
    forall text | Asked(input, id, text)
      ensures id in ResolvedState(input).value.obligations
      ensures ResolvedState(input).value.obligations[id] == Requirement(Prose(text), RuledState(input).value.discharge, true)
    {
      AcceptedCriterion(input, text);
    }
  }

  // ---------------------------------------------------------------- the contract

  /** Who the contract is, what it is about and what it was compiled from, as the input gives them. */
  lemma ContractIsFor(input: CompileInput)
    requires Compiled(input).Some?
    ensures var c := Compiled(input).value;
            && Some(c.identity.id) == input.contractId && Some(c.identity.revision) == input.contractRevision
            && c.subject == input.subject
            && c.policy.id == input.policy.id && c.policy.revision == input.policy.revision
            && (c.previous == match input.previous case None => None case Some(before) => Some(before.identity.revision))
            && StrictlyAscending(c.acceptance) && (forall text :: text in c.acceptance <==> text in input.acceptance)
            && StrictlyAscending(c.facts) && forall id :: id in c.facts <==> exists f :: f in input.facts && f.id == id
  {
    ListingLists(Elements(input.acceptance));
    ListingLists(FactIndex(input.facts).Keys);
    var c := Compiled(input).value;
    forall text ensures text in c.acceptance <==> text in input.acceptance {
      assert text in c.acceptance <==> text in Elements(c.acceptance);
    }
    FactIndexIds(input.facts);
    forall id ensures id in c.facts <==> exists f :: f in input.facts && f.id == id {
      assert id in c.facts <==> id in Elements(c.facts);
      forall f | f in input.facts && f.id == id ensures id in FactIndex(input.facts) { FactIndexHolds(input.facts, input.subject, f); }
    }
  }

  /** Everything in a contract but its obligations is exactly what rules that apply state. */
  lemma ContractIsRuled(input: CompileInput) returns (required: seq<RoleRequirement>)
    requires Compiled(input).Some?
    ensures var c := Compiled(input).value;
            && ActionsRuled(input, c.permissions, c.prohibitions, c.capabilities)
            && ClaimsRuled(input, c.claims) && InvariantsRuled(input, c.invariants)
            && ConditionsRuled(input, c.conditions) && (forall key :: GateRuled(input, c.gates, key))
            && RolesRuled(input, required, c.roles)
  {
    ResolvedFromRuled(input);
    ActionsFollow(input);
    ClaimsFollow(input);
    InvariantsFollow(input);
    ConditionsFollow(input);
    forall key ensures GateRuled(input, RuledState(input).value.gates, key) { GatesFollow(input, key); }
    required := RolesFollow(input);
  }

  /**
    The obligations are those that rules which apply state, one for each unknown fact, and one
    for each criterion that is not blank; and each says what its origin says.
   */
  lemma ObligationsAreRuled(input: CompileInput, id: ReqId)
    requires Compiled(input).Some?
    ensures ObligationRuled(input, Compiled(input).value.obligations, id)
  {
    ObligationsResolved(input, id);
  }
}
