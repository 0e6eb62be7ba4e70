/** When the compiler refuses a policy: exactly when two rules that apply contradict each other or one says something unknown. */
module PolicyRefusals {
  import opened Ids
  import opened Vocabulary
  import opened Merging
  import opened Policies
  import opened PolicyLaws
  import opened ContractLaws
  import opened PolicyAnswers

  // ---------------------------------------------------------------- what contradicts what

  /** Two rules may state a requirement twice only if both mean the same. */
  ghost predicate SameRequirement(a: PolicyRequirement, b: PolicyRequirement) {
    && a.statement == b.statement && a.material == b.material
    && forall c :: c in a.claims <==> c in b.claims
  }

  ghost predicate AgreeOn(a: map<ReqId, PolicyRequirement>, b: map<ReqId, PolicyRequirement>) {
    forall id | id in a && id in b :: SameRequirement(a[id], b[id])
  }

  ghost predicate SameClaims(a: AuthorityCondition, b: AuthorityCondition) {
    a.action == b.action ==> forall c :: c in a.claims <==> c in b.claims
  }

  ghost predicate Compatible(a: Effect, b: Effect) {
    && AgreeOn(a.invariants, b.invariants) && AgreeOn(a.obligations, b.obligations)
    && (forall id | id in a.claims && id in b.claims :: a.claims[id] == b.claims[id])
    && forall c, d | c in a.conditions && d in b.conditions :: SameClaims(c, d)
  }

  /** Every word a rule's requirements use is one the vocabulary has. */
  ghost predicate Understood(e: Effect) {
    && (forall r, name :: r in e.roles ==>
          && r.role != UnknownRole(name) && UnknownCapability(name) !in r.capabilities && r.trust != UnknownTrust(name)
          && (r.independence.Some? ==> r.independence.value.dimension != UnknownDimension(name)))
    && (forall name :: UnknownCapability(name) !in e.capabilities)
    && forall g, name :: g in e.gates ==> g.kind != NotAGate(name)
  }

  /** A rule may restate the obligation of an unknown fact only as it is. */
  ghost predicate AllowsFacts(facts: seq<Fact>, e: Effect) {
    forall f | f in facts && f.value == FactUnknown && Uncertain(f.id) in e.obligations ::
      SameRequirement(e.obligations[Uncertain(f.id)], PolicyRequirement(ResolveUncertainty(f.key), [], false))
  }

  // ---------------------------------------------------------------- part by part

  lemma KnownRaw(r: RoleRequirement)
    ensures RoleKnown(r) <==> forall name ::
      && r.role != UnknownRole(name) && UnknownCapability(name) !in r.capabilities && r.trust != UnknownTrust(name)
      && (r.independence.Some? ==> r.independence.value.dimension != UnknownDimension(name))
  {
    if r.role.UnknownRole? { assert r.role == UnknownRole(r.role.name); }
    if r.trust.UnknownTrust? { assert r.trust == UnknownTrust(r.trust.name); }
    if r.independence.Some? && r.independence.value.dimension.UnknownDimension? {
      assert r.independence.value.dimension == UnknownDimension(r.independence.value.dimension.name);
    }
    forall c | c in r.capabilities && c.UnknownCapability? ensures UnknownCapability(c.name) in r.capabilities {}
  }

  lemma {:induction false} RolesResolve(roles: map<Role, RoleDuty>, required: seq<RoleRequirement>)
    ensures FoldAll(AddRole, roles, required).Some? <==> forall r | r in required :: RoleKnown(r)
  {
    if required != [] {
      RolesResolve(roles, required[..|required| - 1]);
      assert forall r :: r in required <==> r in required[..|required| - 1] || r == required[|required| - 1];
    }
  }

  lemma {:induction false} GatesResolve(gates: map<GateKey, set<Id>>, stated: seq<GateRequirement>)
    ensures FoldAll(AddGate, gates, stated).Some? <==> forall g | g in stated :: !g.kind.NotAGate?
  {
    if stated != [] {
      GatesResolve(gates, stated[..|stated| - 1]);
      assert forall g :: g in stated <==> g in stated[..|stated| - 1] || g == stated[|stated| - 1];
    }
  }

  lemma SameElements(a: seq<Id>, b: seq<Id>)
    ensures Elements(a) == Elements(b) <==> forall c :: c in a <==> c in b
  {
    if Elements(a) == Elements(b) {
      forall c ensures c in a <==> c in b { assert c in a <==> c in Elements(a); }
    }
  }

  ghost predicate AllSameClaims(stated: seq<AuthorityCondition>) {
    forall c, d | c in stated && d in stated :: SameClaims(c, d)
  }

  lemma {:induction false} ConditionsResolve(stated: seq<AuthorityCondition>)
    ensures FoldAll(AddCondition, map[], stated).Some? <==> AllSameClaims(stated)
  {
    if stated != [] {
      var before, last := stated[..|stated| - 1], stated[|stated| - 1];
      ConditionsResolve(before);
      assert forall c :: c in stated <==> c in before || c == last;
      if FoldAll(AddCondition, map[], before).Some? {
        OneMoreCondition(before, last);
      }
    }
  }

  lemma {:induction false} OneMoreCondition(before: seq<AuthorityCondition>, last: AuthorityCondition)
    requires FoldAll(AddCondition, map[], before).Some?
    ensures AddCondition(FoldAll(AddCondition, map[], before).value, last).Some? <==> forall c | c in before :: SameClaims(c, last)
  {
    var t := FoldAll(AddCondition, map[], before).value;
    ConditionsFrom(before, last.action);
    if last.action in t {
      var c :| c in before && c.action == last.action;
      assert forall x :: x in t[last.action] <==> x in c.claims;
      assert t[last.action] == Elements(c.claims);
      SameElements(c.claims, last.claims);
    }
  }

  lemma SameNormal(a: PolicyRequirement, b: PolicyRequirement)
    ensures Normalize(a) == Normalize(b) <==> SameRequirement(a, b)
  {
    SameElements(a.claims, b.claims);
  }

  lemma SaysSame(r: Requirement, a: PolicyRequirement, b: PolicyRequirement)
    requires Says(r, a)
    ensures r == Normalize(b) <==> SameRequirement(a, b)
  {
    assert r.claims == Elements(a.claims);
    SameNormal(a, b);
  }

  // ---------------------------------------------------------------- one effect more

  lemma {:induction false} InvariantsNext(s: State, before: seq<Effect>, e: Effect)
    requires FoldAll(AddEffect, s, before).Some? && s.invariants == map[]
    ensures MergeAgree(FoldAll(AddEffect, s, before).value.invariants, NormalizeAll(e.invariants)).Some? <==>
              forall x | x in before :: AgreeOn(x.invariants, e.invariants)
  {
    var m := FoldAll(AddEffect, s, before).value.invariants;
    forall id | id in e.invariants
      ensures id in m ==> (m[id] == NormalizeAll(e.invariants)[id] <==>
                             forall x | x in before && id in x.invariants :: SameRequirement(x.invariants[id], e.invariants[id]))
    {
      InvariantsFrom(s, before, id);
      if id in m {
        forall x | x in before && id in x.invariants
          ensures m[id] == Normalize(e.invariants[id]) <==> SameRequirement(x.invariants[id], e.invariants[id])
        {
          SaysSame(m[id], x.invariants[id], e.invariants[id]);
        }
      }
    }
    forall x, id | x in before && id in x.invariants ensures id in m { InvariantsFrom(s, before, id); }
  }

  lemma {:induction false} ObligationsNext(s: State, before: seq<Effect>, e: Effect)
    requires FoldAll(AddEffect, s, before).Some?
    ensures MergeAgree(FoldAll(AddEffect, s, before).value.obligations, NormalizeAll(e.obligations)).Some? <==>
              && (forall x | x in before :: AgreeOn(x.obligations, e.obligations))
              && forall id | id in s.obligations && id in e.obligations :: s.obligations[id] == Normalize(e.obligations[id])
  {
    var m := FoldAll(AddEffect, s, before).value.obligations;
    forall id | id in e.obligations
      ensures id in m ==> (m[id] == NormalizeAll(e.obligations)[id] <==>
                             && (forall x | x in before && id in x.obligations :: SameRequirement(x.obligations[id], e.obligations[id]))
                             && (id in s.obligations ==> s.obligations[id] == Normalize(e.obligations[id])))
    {
      ObligationsFrom(s, before, id);
      if id in m {
        forall x | x in before && id in x.obligations
          ensures m[id] == Normalize(e.obligations[id]) <==> SameRequirement(x.obligations[id], e.obligations[id])
        {
          SaysSame(m[id], x.obligations[id], e.obligations[id]);
        }
      }
    }
    forall id | id in s.obligations ensures id in m { ObligationsFrom(s, before, id); }
    forall x, id | x in before && id in x.obligations ensures id in m { ObligationsFrom(s, before, id); }
  }

  lemma {:induction false} ClaimsNext(s: State, before: seq<Effect>, e: Effect)
    requires FoldAll(AddEffect, s, before).Some? && s.claims == map[]
    ensures MergeAgree(FoldAll(AddEffect, s, before).value.claims, e.claims).Some? <==>
              forall x, id | x in before && id in x.claims && id in e.claims :: x.claims[id] == e.claims[id]
  {
    var m := FoldAll(AddEffect, s, before).value.claims;
    forall id ensures id in m <==> exists x :: x in before && id in x.claims
              ensures forall x | x in before && id in x.claims :: m[id] == x.claims[id]
    {
      ClaimsFrom(s, before, id);
    }
  }

  lemma SameClaimsTogether(was: seq<AuthorityCondition>, stated: seq<AuthorityCondition>)
    ensures AllSameClaims(was + stated) <==>
              AllSameClaims(was) && AllSameClaims(stated) && forall c, d | c in was && d in stated :: SameClaims(c, d)
  {
    assert forall c :: c in was + stated <==> c in was || c in stated;
  }

  /** Every pair of conditions of two lists asks the same claims of the same action. */
  ghost predicate ConditionsAgree(a: Effect, b: Effect) {
    forall c, d | c in a.conditions && d in b.conditions :: SameClaims(c, d)
  }

  lemma {:induction false} ConditionsNext(s: State, before: seq<Effect>, e: Effect)
    requires FoldAll(AddEffect, s, before).Some? && s.conditions == map[]
    ensures FoldAll(AddCondition, FoldAll(AddEffect, s, before).value.conditions, e.conditions).Some? <==>
              ConditionsAgree(e, e) && forall x | x in before :: ConditionsAgree(x, e)
  {
    var was := AllConditions(before);
    PartsFold(s, before);
    FoldConcat(AddCondition, map[], was, e.conditions);
    ConditionsResolve(was);
    ConditionsResolve(was + e.conditions);
    AllAre(before);
    SameClaimsTogether(was, e.conditions);
  }

  /** What one effect more has to meet beside those before it. */
  ghost predicate Joins(s: State, before: seq<Effect>, e: Effect) {
    && Understood(e) && ConditionsAgree(e, e)
    && (forall x | x in before :: Compatible(x, e))
    && forall id | id in s.obligations && id in e.obligations :: s.obligations[id] == Normalize(e.obligations[id])
  }

  lemma CapabilityRaw(c: Capability)
    ensures KnownCapability(c) <==> forall name :: c != UnknownCapability(name)
  {
    if c.UnknownCapability? { assert c == UnknownCapability(c.name); }
  }

  lemma GateRaw(g: GateRequirement)
    ensures g.kind.NotAGate? <==> exists name :: g.kind == NotAGate(name)
  {
    if g.kind.NotAGate? { assert g.kind == NotAGate(g.kind.name); }
  }

  lemma UnderstoodExactly(e: Effect)
    ensures Understood(e) <==>
              && (forall r | r in e.roles :: RoleKnown(r))
              && (forall c :: c in e.capabilities ==> KnownCapability(c))
              && forall g | g in e.gates :: !g.kind.NotAGate?
  {
    forall r ensures RoleKnown(r) <==> forall name ::
      && r.role != UnknownRole(name) && UnknownCapability(name) !in r.capabilities && r.trust != UnknownTrust(name)
      && (r.independence.Some? ==> r.independence.value.dimension != UnknownDimension(name)) { KnownRaw(r); }
    forall c ensures KnownCapability(c) <==> forall name :: c != UnknownCapability(name) { CapabilityRaw(c); }
    forall g: GateRequirement ensures g.kind.NotAGate? <==> exists name :: g.kind == NotAGate(name) { GateRaw(g); }
  }

  lemma {:induction false} EffectNext(s: State, before: seq<Effect>, e: Effect)
    requires FoldAll(AddEffect, s, before).Some? && s == NOTHING.(obligations := s.obligations, references := s.references)
    ensures AddEffect(FoldAll(AddEffect, s, before).value, e).Some? <==> Joins(s, before, e)
  {
    var t := FoldAll(AddEffect, s, before).value;
    InvariantsNext(s, before, e);
    ObligationsNext(s, before, e);
    ClaimsNext(s, before, e);
    ConditionsNext(s, before, e);
    UnderstoodExactly(e);
    RolesResolve(t.roles, e.roles);
    GatesResolve(t.gates, e.gates);
  }

  /** Every effect is understood, keeps to the facts' obligations, and is compatible with every effect, itself included. */
  ghost predicate Resolvable(s: State, effects: seq<Effect>) {
    && (forall e | e in effects :: Understood(e))
    && (forall e, id | e in effects && id in s.obligations && id in e.obligations :: s.obligations[id] == Normalize(e.obligations[id]))
    && forall a, b | a in effects && b in effects :: Compatible(a, b)
  }

  lemma CompatibleEitherWay(a: Effect, b: Effect)
    ensures Compatible(a, b) <==> Compatible(b, a)
    ensures Compatible(a, a) <==> ConditionsAgree(a, a)
  {
  }

  lemma {:induction false} EffectsResolve(s: State, effects: seq<Effect>)
    requires s == NOTHING.(obligations := s.obligations, references := s.references)
    ensures FoldAll(AddEffect, s, effects).Some? <==> Resolvable(s, effects)
  {
    if effects != [] {
      var before, e := effects[..|effects| - 1], effects[|effects| - 1];
      EffectsResolve(s, before);
      assert forall x :: x in effects <==> x in before || x == e;
      if FoldAll(AddEffect, s, before).Some? {
        EffectNext(s, before, e);
        CompatibleEitherWay(e, e);
        forall x | x in before ensures Compatible(x, e) <==> Compatible(e, x) { CompatibleEitherWay(x, e); }
      }
    }
  }

  // ---------------------------------------------------------------- the whole input

  /** Facts of distinct ids never contradict each other. */
  lemma {:induction false} FactsResolve(facts: seq<Fact>)
    requires forall i, j | 0 <= i < j < |facts| :: facts[i].id != facts[j].id
    ensures FoldAll(AddUnknown, NOTHING, facts).Some?
  {
    if facts != [] {
      var before, f := facts[..|facts| - 1], facts[|facts| - 1];
      FactsResolve(before);
      FactsAdd(before, Uncertain(f.id));
      forall x | x in before ensures x.id != f.id {
        var i :| 0 <= i < |before| && before[i] == x;
        assert facts[i].id != facts[|facts| - 1].id;
      }
    }
  }

  lemma {:induction false} SortedFactsDistinct(facts: seq<Fact>)
    ensures forall i, j | 0 <= i < j < |SortedFacts(facts)| :: SortedFacts(facts)[i].id != SortedFacts(facts)[j].id
  {
    KeysListed(FactIndex(facts));
    ListingLists(FactIndex(facts).Keys);
    FactIndexIds(facts);
  }

  /** Nothing the rules that apply state is unknown or contradicts another of them, itself or an unknown fact. */
  ghost predicate RulesAgree(input: CompileInput) {
    && (forall e | Ruled(input, e) :: Understood(e) && AllowsFacts(input.facts, e))
    && forall a, b | Ruled(input, a) && Ruled(input, b) :: Compatible(a, b)
  }

  lemma FactObligations(input: CompileInput, known: State, e: Effect)
    requires FactsValid(input.facts, input.subject) && FoldAll(AddUnknown, NOTHING, SortedFacts(input.facts)) == Some(known)
    ensures AllowsFacts(input.facts, e) <==>
              forall id | id in known.obligations && id in e.obligations :: known.obligations[id] == Normalize(e.obligations[id])
  {
    forall f ensures f in SortedFacts(input.facts) <==> f in input.facts { SortedFactsAre(input.facts, input.subject, f); }
    forall id
      ensures id in known.obligations <==> exists f :: f in input.facts && f.value == FactUnknown && id == Uncertain(f.id)
      ensures forall f | f in input.facts && f.value == FactUnknown && id == Uncertain(f.id) ::
                known.obligations[id] == Normalize(PolicyRequirement(ResolveUncertainty(f.key), [], false))
    {
      FactsAdd(SortedFacts(input.facts), id);
    }
    forall a: PolicyRequirement, b: PolicyRequirement ensures Normalize(a) == Normalize(b) <==> SameRequirement(a, b) { SameNormal(a, b); }
  }

  /** The rules resolve exactly when those that apply agree; their order and their ids play no part. */
  lemma RulesResolveExactly(input: CompileInput)
    requires FactsValid(input.facts, input.subject)
    ensures RuledState(input).Some? <==> RulesAgree(input)
  {
    var facts := SortedFacts(input.facts);
    var effects := MatchingEffects(input.policy, facts);
    SortedFactsDistinct(input.facts);
    FactsResolve(facts);
    FactsAdd(facts, Stated(0));
    var known := FoldAll(AddUnknown, NOTHING, facts).value;
    EffectsResolve(known, effects);
    forall e ensures e in effects <==> Ruled(input, e) { EffectsExactly(input, e); }
    forall e ensures AllowsFacts(input.facts, e) <==>
                       forall id | id in known.obligations && id in e.obligations :: known.obligations[id] == Normalize(e.obligations[id]) {
      FactObligations(input, known, e);
    }
  }

  // ---------------------------------------------------------------- when a contract is compiled

  /** Everything the compiler cannot do without is there and fits together. */
  ghost predicate Complete(input: CompileInput) {
    && input.contractId != None && input.contractRevision != None && input.objective != None
    && input.subject.repository != None && input.subject.revision != None
    && |input.acceptance| > 0 && |input.allowedPaths| > 0
    && (input.phase == Predicted || input.phase == Observed || input.phase == Verified)
    && input.modelSubject.repository == input.subject.repository
    && (input.phase == Predicted ==> input.modelSubject.revision == input.subject.revision)
    && match input.previous
       case None => true
       case Some(before) => before.subject.repository == input.subject.repository && input.contractId == Some(before.identity.id)
  }

  ghost predicate OneSubject(input: CompileInput) {
    && (forall f | f in input.facts :: f.subject == input.subject)
    && forall i, j | 0 <= i < |input.facts| && 0 <= j < |input.facts| && input.facts[i].id == input.facts[j].id :: i == j
  }

  /** A rule's requirement is what the criterion itself becomes. */
  ghost predicate IsCriterion(input: CompileInput, text: Id, r: PolicyRequirement) {
    r.statement == Prose(text) && r.material && forall c :: c in r.claims <==> Discharges(input, c)
  }

  /** Criteria of one trimmed text are one criterion, and no rule obliges anything else under a criterion's identity. */
  ghost predicate CriteriaApart(input: CompileInput) {
    && (forall id, a, b | Asked(input, id, a) && Asked(input, id, b) :: a == b)
    && forall id, text, e | Asked(input, id, text) && Ruled(input, e) && id in e.obligations :: IsCriterion(input, text, e.obligations[id])
  }

  ghost predicate Permits(input: CompileInput, a: Action) {
    exists e :: Ruled(input, e) && a in e.permissions
  }

  ghost predicate Prohibits(input: CompileInput, a: Action) {
    exists e :: Ruled(input, e) && a in e.prohibitions
  }

  ghost predicate Conditional(input: CompileInput, a: Action) {
    exists e, k :: Ruled(input, e) && k in e.conditions && k.action == a
  }

  ghost predicate Defined(input: CompileInput, claim: Id) {
    exists e :: Ruled(input, e) && claim in e.claims
  }

  ghost predicate SomeCriterion(input: CompileInput) {
    exists text :: text in input.acceptance && text in input.trimmed
  }

  /** Some requirement, gate or condition of the rule names the claim. */
  ghost predicate Mentions(e: Effect, claim: Id) {
    || (exists id :: id in e.invariants && claim in e.invariants[id].claims)
    || (exists id :: id in e.obligations && claim in e.obligations[id].claims)
    || (exists g :: g in e.gates && claim in g.claims)
    || (exists k :: k in e.conditions && claim in k.claims)
  }

  /** A rule that applies mentions the claim, or it discharges a criterion and there is one. */
  ghost predicate Mentioned(input: CompileInput, claim: Id) {
    (exists e :: Ruled(input, e) && Mentions(e, claim)) || (SomeCriterion(input) && Discharges(input, claim))
  }

  ghost predicate MentionsDefined(input: CompileInput) {
    forall claim | Mentioned(input, claim) :: Defined(input, claim)
  }

  /** Every material obligation of a rule that applies asks some claim, and criteria, if there are any, are discharged by one. */
  ghost predicate AllDischargeable(input: CompileInput) {
    && (forall e, id | Ruled(input, e) && id in e.obligations && e.obligations[id].material :: |e.obligations[id].claims| > 0)
    && (SomeCriterion(input) ==> exists claim :: Discharges(input, claim))
  }

  lemma CriteriaApartExactly(input: CompileInput)
    requires FactsValid(input.facts, input.subject) && RuledState(input).Some?
    ensures AcceptanceUnambiguous(input, RuledState(input).value) <==> CriteriaApart(input)
  {
    var ruled := RuledState(input).value;
    DischargeFollows(input);
    forall id, text | Asked(input, id, text)
      ensures id in ruled.obligations ==>
                (ruled.obligations[id] == Requirement(Prose(text), ruled.discharge, true) <==>
                   forall e | Ruled(input, e) && id in e.obligations :: IsCriterion(input, text, e.obligations[id]))
      ensures forall e | Ruled(input, e) && id in e.obligations :: id in ruled.obligations
    {
      RuledCriterion(input, id, text);
    }
    forall a | a in input.acceptance && a in input.trimmed ensures Asked(input, Acceptance(input.trimmed[a]), a) {}
  }

  lemma RuledCriterion(input: CompileInput, id: ReqId, text: Id)
    requires FactsValid(input.facts, input.subject) && RuledState(input).Some? && Asked(input, id, text)
    ensures var ruled := RuledState(input).value;
            && (id in ruled.obligations ==>
                  (ruled.obligations[id] == Requirement(Prose(text), ruled.discharge, true) <==>
                     forall e | Ruled(input, e) && id in e.obligations :: IsCriterion(input, text, e.obligations[id])))
            && forall e | Ruled(input, e) && id in e.obligations :: id in ruled.obligations
  {
    var ruled := RuledState(input).value;
    ObligationsFollow(input, id);
    DischargeFollows(input);
    assert forall f :: !Unresolved(input, id, f);
    forall e | Ruled(input, e) && id in e.obligations
      ensures ruled.obligations[id] == Requirement(Prose(text), ruled.discharge, true) <==> IsCriterion(input, text, e.obligations[id])
    {
      assert Says(ruled.obligations[id], e.obligations[id]);
    }
  }

  /** Rules and criteria come together exactly when the rules agree and the criteria stay apart. */
  lemma ResolvesExactly(input: CompileInput)
    requires FactsValid(input.facts, input.subject)
    ensures ResolvedState(input).Some? <==> RulesAgree(input) && CriteriaApart(input)
  {
    RulesResolveExactly(input);
    if RuledState(input).Some? {
      AcceptanceResolvesExactly(input);
      CriteriaApartExactly(input);
    }
  }

  // ---------------------------------------------------------------- claims

  lemma InvariantsName(input: CompileInput, m: map<ReqId, Requirement>, c: Id)
    requires InvariantsRuled(input, m)
    ensures NamesClaim(m, c) <==> exists e, id :: Ruled(input, e) && id in e.invariants && c in e.invariants[id].claims
  {
    if id :| id in m && c in m[id].claims {
      var e :| Ruled(input, e) && id in e.invariants;
      assert Says(m[id], e.invariants[id]);
    }
    if e, id :| Ruled(input, e) && id in e.invariants && c in e.invariants[id].claims {
      assert Says(m[id], e.invariants[id]);
    }
  }

  lemma ObligationsName(input: CompileInput, m: map<ReqId, Requirement>, c: Id)
    requires forall id :: ObligationRuled(input, m, id)
    ensures NamesClaim(m, c) <==>
              || (exists e, id :: Ruled(input, e) && id in e.obligations && c in e.obligations[id].claims)
              || (SomeCriterion(input) && Discharges(input, c))
  {
    if id :| id in m && c in m[id].claims {
      assert ObligationRuled(input, m, id);
      if e :| Ruled(input, e) && id in e.obligations { assert Says(m[id], e.obligations[id]); }
    }
    if e, id :| Ruled(input, e) && id in e.obligations && c in e.obligations[id].claims {
      assert ObligationRuled(input, m, id) && Says(m[id], e.obligations[id]);
    }
    if SomeCriterion(input) && Discharges(input, c) {
      var text :| text in input.acceptance && text in input.trimmed;
      assert ObligationRuled(input, m, Acceptance(input.trimmed[text])) && Asked(input, Acceptance(input.trimmed[text]), text);
    }
  }

  lemma GatesNameClaim(input: CompileInput, gates: map<GateKey, set<Id>>, c: Id)
    requires forall key :: GateRuled(input, gates, key)
    ensures GatesName(gates, c) <==> exists e, g :: Ruled(input, e) && g in e.gates && c in g.claims
  {
    if key :| key in gates && c in gates[key] {
      assert GateRuled(input, gates, key);
    }
    if e, g :| Ruled(input, e) && g in e.gates && c in g.claims {
      assert GateRuled(input, gates, GateKey(g.kind, g.action)) && GateAsked(input, GateKey(g.kind, g.action), g);
    }
  }

  ghost predicate NamedAnywhere(s: State, c: Id) {
    Named(s, c) || exists a :: a in s.conditions && c in s.conditions[a]
  }

  /** A claim that anything resolved names is one a rule that applies mentions, or one that discharges a criterion. */
  lemma NamedExactly(input: CompileInput, c: Id)
    requires FactsValid(input.facts, input.subject) && ResolvedState(input).Some?
    ensures NamedAnywhere(ResolvedState(input).value, c) <==> Mentioned(input, c)
  {
    var s := ResolvedState(input).value;
    ResolvedFromRuled(input);
    InvariantsFollow(input);
    InvariantsName(input, s.invariants, c);
    forall id ensures ObligationRuled(input, s.obligations, id) { ObligationsResolved(input, id); }
    ObligationsName(input, s.obligations, c);
    forall key ensures GateRuled(input, s.gates, key) { GatesFollow(input, key); }
    GatesNameClaim(input, s.gates, c);
    ConditionsFollow(input);
  }

  lemma ClaimsDefinedExactly(input: CompileInput)
    requires FactsValid(input.facts, input.subject) && ResolvedState(input).Some?
    ensures EveryClaimDefined(ResolvedState(input).value) <==> MentionsDefined(input)
  {
    var s := ResolvedState(input).value;
    EveryNamed(s);
    forall c ensures c in s.claims <==> Defined(input, c) { DefinedExactly(input, c); }
    forall c ensures NamedAnywhere(s, c) <==> Mentioned(input, c) { NamedExactly(input, c); }
  }

  lemma EveryNamed(s: State)
    ensures EveryClaimDefined(s) <==> forall c | NamedAnywhere(s, c) :: c in s.claims
  {
  }

  lemma DefinedExactly(input: CompileInput, c: Id)
    requires FactsValid(input.facts, input.subject) && ResolvedState(input).Some?
    ensures c in ResolvedState(input).value.claims <==> Defined(input, c)
  {
    ResolvedFromRuled(input);
    ClaimsFollow(input);
  }

  lemma DischargeableExactly(input: CompileInput)
    requires FactsValid(input.facts, input.subject) && ResolvedState(input).Some?
    ensures (forall id | id in ResolvedState(input).value.obligations && ResolvedState(input).value.obligations[id].material ::
               ResolvedState(input).value.obligations[id].claims != {}) <==> AllDischargeable(input)
  {
    var m := ResolvedState(input).value.obligations;
    forall id ensures ObligationRuled(input, m, id) { ObligationsResolved(input, id); }
    if AllDischargeable(input) {
      forall id | id in m && m[id].material ensures m[id].claims != {} { OneDischargeable(input, m, id); }
    }
    if forall id | id in m && m[id].material :: m[id].claims != {} {
      forall e, id | Ruled(input, e) && id in e.obligations && e.obligations[id].material ensures |e.obligations[id].claims| > 0 {
        assert ObligationRuled(input, m, id) && Says(m[id], e.obligations[id]);
        var c :| c in m[id].claims;
      }
      if text :| text in input.acceptance && text in input.trimmed {
        var id := Acceptance(input.trimmed[text]);
        assert ObligationRuled(input, m, id) && Asked(input, id, text);
        var c :| c in m[id].claims;
        assert Discharges(input, c);
      }
    }
  }

  lemma OneDischargeable(input: CompileInput, m: map<ReqId, Requirement>, id: ReqId)
    requires AllDischargeable(input) && ObligationRuled(input, m, id) && id in m && m[id].material
    ensures m[id].claims != {}
  {
    if e :| Ruled(input, e) && id in e.obligations {
      assert Says(m[id], e.obligations[id]);
      assert e.obligations[id].claims[0] in m[id].claims;
    } else if text :| Asked(input, id, text) {
      var c :| Discharges(input, c);
      assert c in m[id].claims;
    }
  }

  /**
    When a contract is compiled, in terms of the input alone. The input is complete, its facts
    are one to an id and about one subject, the rules that apply agree, criteria stay apart,
    nothing is both permitted and prohibited, every claim mentioned is defined, nothing is
    permitted that the contract before it did not permit, and, where anything could be
    authorized, everything material can be discharged. In every other case it is refused.
   */
  lemma CompilesExactly(input: CompileInput)
    ensures Compiled(input).Some? <==>
              && Complete(input) && OneSubject(input)
              && RulesAgree(input) && CriteriaApart(input)
              && (forall a :: !(Permits(input, a) && Prohibits(input, a)))
              && MentionsDefined(input)
              && (input.previous.Some? ==> forall a | Permits(input, a) :: a in input.previous.value.permissions)
              && ((exists a :: Permits(input, a) || Conditional(input, a)) ==> AllDischargeable(input))
  {
    assert InputValid(input) <==> Complete(input);
    assert FactsValid(input.facts, input.subject) <==> OneSubject(input);
    if InputValid(input) && FactsValid(input.facts, input.subject) {
      ResolvesExactly(input);
      if ResolvedState(input).Some? { AcceptedExactly(input); }
    }
  }

  lemma AcceptedExactly(input: CompileInput)
    requires InputValid(input) && FactsValid(input.facts, input.subject) && ResolvedState(input).Some?
    ensures Compiled(input).Some? <==>
              && (forall a :: !(Permits(input, a) && Prohibits(input, a)))
              && MentionsDefined(input)
              && (input.previous.Some? ==> forall a | Permits(input, a) :: a in input.previous.value.permissions)
              && ((exists a :: Permits(input, a) || Conditional(input, a)) ==> AllDischargeable(input))
  {
    var s := ResolvedState(input).value;
    CompiledExactly(input);
    ClaimsDefinedExactly(input);
    DischargeableExactly(input);
    forall a ensures (a in s.permissions <==> Permits(input, a)) && (a in s.prohibitions <==> Prohibits(input, a)) {
      ActionExactly(input, a);
    }
    AuthorizesExactly(input);
  }

  lemma ActionExactly(input: CompileInput, a: Action)
    requires FactsValid(input.facts, input.subject) && ResolvedState(input).Some?
    ensures var s := ResolvedState(input).value;
            && (a in s.permissions <==> Permits(input, a)) && (a in s.prohibitions <==> Prohibits(input, a))
            && (a in s.conditions <==> Conditional(input, a))
  {
    ResolvedFromRuled(input);
    ActionsFollow(input);
    ConditionsFollow(input);
  }

  lemma AuthorizesExactly(input: CompileInput)
    requires FactsValid(input.facts, input.subject) && ResolvedState(input).Some?
    ensures ResolvedState(input).value.permissions != {} || ResolvedState(input).value.conditions != map[] <==>
              exists a :: Permits(input, a) || Conditional(input, a)
  {
    var s := ResolvedState(input).value;
    forall a ensures (a in s.permissions || a in s.conditions) <==> Permits(input, a) || Conditional(input, a) { ActionExactly(input, a); }
    if s.conditions != map[] {
      var a :| a in s.conditions;
    }
  }
}
