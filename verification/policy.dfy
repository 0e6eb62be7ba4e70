/** Compiling policy rules into a work contract: obligations are merged, conflicts are refused. */
module Policies {
  import opened Ids
  import opened Vocabulary
  import opened Merging
  import opened SortedUnique

  // ---------------------------------------------------------------- what policy says

  /** A requirement's identity: stated by policy, or derived from a fact or from a criterion's trimmed text. */
  datatype ReqId = Stated(name: Id) | Uncertain(fact: Id) | Acceptance(trimmed: Id)

  datatype Statement = Prose(text: Id) | ResolveUncertainty(key: Id)

  /** What policy states; `claims` as written. */
  datatype PolicyRequirement = PolicyRequirement(statement: Statement, claims: seq<Id>, material: bool)

  /** What a contract carries. A sorted list without repeats is modelled as the set it lists. */
  datatype Requirement = Requirement(statement: Statement, claims: set<Id>, material: bool)

  datatype RequiredClaim = RequiredClaim(evidenceClass: EvidenceClass, independent: bool)

  datatype EvidenceClass = HumanApproval | OtherClass(name: Id)

  datatype AuthorityCondition = AuthorityCondition(action: Action, claims: seq<Id>)

  datatype RoleRequirement = RoleRequirement(role: Role, capabilities: seq<Capability>, independence: Option<Independence>, trust: Trust)

  datatype GateKind = AssuranceGate | HumanDecisionGate | NotAGate(name: Id)

  datatype GateRequirement = GateRequirement(kind: GateKind, claims: seq<Id>, action: Option<Action>)

  datatype Effect = Effect(
    discharge: seq<Id>,
    invariants: map<ReqId, PolicyRequirement>,
    obligations: map<ReqId, PolicyRequirement>,
    claims: map<Id, RequiredClaim>,
    permissions: seq<Action>,
    prohibitions: seq<Action>,
    roles: seq<RoleRequirement>,
    capabilities: seq<Capability>,
    gates: seq<GateRequirement>,
    conditions: seq<AuthorityCondition>)

  // ---------------------------------------------------------------- the resolution as a value

  /** What is required of whoever stands in a role, normalized. */
  datatype Separation = Separation(dimension: Dimension, differentFrom: set<Id>, humanSubstitutionPermitted: bool)

  datatype RoleDuty = RoleDuty(capabilities: set<Capability>, separation: Option<Separation>, trust: Trust)

  /** What identifies a gate obligation; the claims under one key accumulate. */
  datatype GateKey = GateKey(kind: GateKind, action: Option<Action>)

  datatype State = State(
    invariants: map<ReqId, Requirement>,
    obligations: map<ReqId, Requirement>,
    claims: map<Id, RequiredClaim>,
    permissions: set<Action>,
    prohibitions: set<Action>,
    conditions: map<Action, set<Id>>,
    references: set<Id>,
    discharge: set<Id>,
    roles: map<Role, RoleDuty>,
    capabilities: set<Capability>,
    gates: map<GateKey, set<Id>>)

  const NOTHING := State(map[], map[], map[], {}, {}, map[], {}, {}, map[], {}, map[])

  function Normalize(r: PolicyRequirement): Requirement {
    Requirement(r.statement, Elements(r.claims), r.material)
  }

  function NormalizeAll(m: map<ReqId, PolicyRequirement>): map<ReqId, Requirement> {
    map id | id in m :: Normalize(m[id])
  }

  function ClaimsNamed(m: map<ReqId, PolicyRequirement>): set<Id> {
    set id, claim | id in m && claim in m[id].claims :: claim
  }

  function GateClaims(gates: seq<GateRequirement>): set<Id> {
    set g, claim | g in gates && claim in g.claims :: claim
  }

  predicate RoleKnown(r: RoleRequirement) {
    && KnownRole(r.role)
    && (forall c | c in r.capabilities :: KnownCapability(c))
    && (r.independence.Some? ==> KnownDimension(r.independence.value.dimension))
    && !r.trust.UnknownTrust?
  }

  function NormalizeRole(r: RoleRequirement): RoleDuty {
    RoleDuty(Elements(r.capabilities),
             if r.independence.None? then None
             else Some(Separation(r.independence.value.dimension, Elements(r.independence.value.differentFrom),
                                  r.independence.value.humanSubstitutionPermitted)),
             r.trust)
  }

  function Stronger(a: Dimension, b: Dimension): Dimension {
    if DimensionStrength(b) > DimensionStrength(a) then b else a
  }

  /** The stronger dimension, the union of the peers, and a substitution only where both permit it. */
  function Separations(a: Option<Separation>, b: Option<Separation>): Option<Separation> {
    if b.None? then a
    else if a.None? then b
    else Some(Separation(Stronger(a.value.dimension, b.value.dimension), a.value.differentFrom + b.value.differentFrom,
                         a.value.humanSubstitutionPermitted && b.value.humanSubstitutionPermitted))
  }

  /** `mergeRoleRequirements`: the least duty that asks for everything both ask for and permits only what both permit. */
  function MergeRoles(a: RoleDuty, b: RoleDuty): RoleDuty {
    RoleDuty(a.capabilities + b.capabilities, Separations(a.separation, b.separation),
             if TrustStrength(b.trust) > TrustStrength(a.trust) then b.trust else a.trust)
  }

  function AddRole(roles: map<Role, RoleDuty>, r: RoleRequirement): Option<map<Role, RoleDuty>> {
    if !RoleKnown(r) then None
    else if r.role in roles then Some(roles[r.role := MergeRoles(roles[r.role], NormalizeRole(r))])
    else Some(roles[r.role := NormalizeRole(r)])
  }

  function AddGate(gates: map<GateKey, set<Id>>, g: GateRequirement): Option<map<GateKey, set<Id>>> {
    var key := GateKey(g.kind, g.action);
    if g.kind.NotAGate? then None
    else if key in gates then Some(gates[key := gates[key] + Elements(g.claims)])
    else Some(gates[key := Elements(g.claims)])
  }

  function AddCondition(conditions: map<Action, set<Id>>, c: AuthorityCondition): Option<map<Action, set<Id>>> {
    if c.action in conditions && conditions[c.action] != Elements(c.claims) then None
    else Some(conditions[c.action := Elements(c.claims)])
  }

  /** `addEffect`: everything one matching rule states, or a refusal. */
  ghost function AddEffect(s: State, e: Effect): Option<State> {
    var invariants := MergeAgree(s.invariants, NormalizeAll(e.invariants));
    var obligations := MergeAgree(s.obligations, NormalizeAll(e.obligations));
    var claims := MergeAgree(s.claims, e.claims);
    var roles := FoldAll(AddRole, s.roles, e.roles);
    var gates := FoldAll(AddGate, s.gates, e.gates);
    var conditions := FoldAll(AddCondition, s.conditions, e.conditions);
    if invariants.None? || obligations.None? || claims.None? || roles.None? || gates.None? || conditions.None? then None
    else if !(forall c :: c in e.capabilities ==> KnownCapability(c)) then None
    else Some(State(
      invariants.value, obligations.value, claims.value,
      s.permissions + Elements(e.permissions), s.prohibitions + Elements(e.prohibitions), conditions.value,
      s.references + ClaimsNamed(e.invariants) + ClaimsNamed(e.obligations) + GateClaims(e.gates),
      s.discharge + Elements(e.discharge),
      roles.value, s.capabilities + Elements(e.capabilities), gates.value))
  }

  ghost function AddObligation(s: State, id: ReqId, r: PolicyRequirement): Option<State> {
    var obligations := MergeAgree(s.obligations, map[id := Normalize(r)]);
    if obligations.None? then None
    else Some(s.(obligations := obligations.value, references := s.references + Elements(r.claims)))
  }

  // ---------------------------------------------------------------- the compiler's inputs

  datatype FactValue = FactUnknown | FactValue(name: Id)

  datatype Phase = Predicted | Observed | Verified | OtherPhase(name: Id)

  datatype Subject = Subject(repository: Option<Id>, revision: Option<Id>)

  datatype Fact = Fact(id: Id, key: Id, value: FactValue, phase: Phase, confidence: Id, subject: Subject, provenance: Id, producer: Id)

  datatype Condition = Condition(
    key: Id, value: FactValue, phase: Option<Phase>, confidence: Option<Id>, provenance: Option<Id>, producer: Option<Id>)

  datatype Rule = Rule(when_: Condition, effect: Effect)

  datatype ObjectRevision = ObjectRevision(id: Id, revision: Id)

  datatype Policy = Policy(id: Id, revision: Id, rules: map<Id, Rule>)

  datatype Contract = Contract(
    identity: ObjectRevision,
    subject: Subject,
    policy: ObjectRevision,
    previous: Option<Id>,
    acceptance: seq<Id>,
    facts: seq<Id>,
    invariants: map<ReqId, Requirement>,
    obligations: map<ReqId, Requirement>,
    claims: map<Id, RequiredClaim>,
    permissions: set<Action>,
    prohibitions: set<Action>,
    conditions: map<Action, set<Id>>,
    roles: map<Role, RoleDuty>,
    capabilities: set<Capability>,
    gates: map<GateKey, set<Id>>)

  /** `trimmed` says what trimming leaves of a text; a blank text is not in it. */
  datatype CompileInput = CompileInput(
    contractId: Option<Id>,
    contractRevision: Option<Id>,
    objective: Option<Id>,
    acceptance: seq<Id>,
    trimmed: map<Id, Id>,
    subject: Subject,
    phase: Phase,
    allowedPaths: seq<Id>,
    modelSubject: Subject,
    policy: Policy,
    facts: seq<Fact>,
    previous: Option<Contract>)

  predicate InputValid(input: CompileInput) {
    && input.contractId.Some? && input.contractRevision.Some? && input.objective.Some?
    && input.subject.repository.Some? && input.subject.revision.Some?
    && input.acceptance != [] && input.allowedPaths != []
    && !input.phase.OtherPhase?
    && input.modelSubject.repository == input.subject.repository
    && (input.phase.Predicted? ==> input.modelSubject == input.subject)
    && (input.previous.Some? ==>
          input.previous.value.subject.repository == input.subject.repository && Some(input.previous.value.identity.id) == input.contractId)
  }

  /** One fact under each id, all of the contract's own subject. */
  predicate FactsValid(facts: seq<Fact>, subject: Subject) {
    && (forall i | 0 <= i < |facts| :: facts[i].subject == subject)
    && (forall i, j | 0 <= i < j < |facts| :: facts[i].id != facts[j].id)
  }

  function FactIndex(facts: seq<Fact>): map<Id, Fact> {
    if facts == [] then map[] else FactIndex(facts[..|facts| - 1])[facts[|facts| - 1].id := facts[|facts| - 1]]
  }

  function Picked<T>(m: map<Id, T>, ids: seq<Id>): seq<T>
    requires forall id | id in ids :: id in m
  {
    seq(|ids|, i requires 0 <= i < |ids| => m[ids[i]])
  }

  lemma KeysListed<T>(m: map<Id, T>)
    ensures forall id | id in Listing(m.Keys) :: id in m
  {
    ListingLists(m.Keys);
    forall id | id in Listing(m.Keys) ensures id in m { assert id in Elements(Listing(m.Keys)); }
  }

  /** The facts by ascending id. */
  function SortedFacts(facts: seq<Fact>): seq<Fact> {
    KeysListed(FactIndex(facts));
    Picked(FactIndex(facts), Listing(FactIndex(facts).Keys))
  }

  predicate FactMatches(c: Condition, f: Fact) {
    && f.key == c.key && f.value == c.value
    && (c.phase.Some? ==> f.phase == c.phase.value)
    && (c.confidence.Some? ==> f.confidence == c.confidence.value)
    && (c.provenance.Some? ==> f.provenance == c.provenance.value)
    && (c.producer.Some? ==> f.producer == c.producer.value)
  }

  predicate MatchesAny(c: Condition, facts: seq<Fact>) {
    exists f | f in facts :: FactMatches(c, f)
  }

  /** The effects of the matching rules, in the order of the ids. */
  function Matching(rules: map<Id, Rule>, ids: seq<Id>, facts: seq<Fact>): seq<Effect>
    requires forall id | id in ids :: id in rules
  {
    if ids == [] then []
    else
      var last := rules[ids[|ids| - 1]];
      Matching(rules, ids[..|ids| - 1], facts) + if MatchesAny(last.when_, facts) then [last.effect] else []
  }

  function MatchingEffects(policy: Policy, facts: seq<Fact>): seq<Effect> {
    KeysListed(policy.rules);
    Matching(policy.rules, Listing(policy.rules.Keys), facts)
  }

  // ---------------------------------------------------------------- compiling

  ghost function AddUnknown(s: State, f: Fact): Option<State> {
    if !f.value.FactUnknown? then Some(s)
    else AddObligation(s, Uncertain(f.id), PolicyRequirement(ResolveUncertainty(f.key), [], false))
  }

  datatype Criterion = Criterion(text: Id, trimmed: Option<Id>)

  function CriterionOf(text: Id, trimmed: map<Id, Id>): Criterion {
    Criterion(text, if text in trimmed then Some(trimmed[text]) else None)
  }

  function Criteria(texts: seq<Id>, trimmed: map<Id, Id>): seq<Criterion> {
    seq(|texts|, i requires 0 <= i < |texts| => CriterionOf(texts[i], trimmed))
  }

  /** Each criterion that says anything becomes a material obligation, discharged as policy says acceptance is. */
  ghost function AddCriterion(s: State, c: Criterion): Option<State> {
    if c.trimmed.None? then Some(s)
    else
      var obligations := MergeAgree(s.obligations, map[Acceptance(c.trimmed.value) := Requirement(Prose(c.text), s.discharge, true)]);
      if obligations.None? then None
      else Some(s.(obligations := obligations.value, references := s.references + s.discharge))
  }

  predicate ReferencesValid(s: State) {
    && s.permissions !! s.prohibitions
    && s.references <= s.claims.Keys
    && (forall a | a in s.conditions :: s.conditions[a] <= s.claims.Keys)
  }

  predicate MaterialDischarged(s: State) {
    || (s.permissions == {} && s.conditions == map[])
    || (forall id | id in s.obligations :: s.obligations[id].material ==> s.obligations[id].claims != {})
  }

  predicate NoExpansion(previous: Option<Contract>, permissions: set<Action>) {
    previous.Some? ==> permissions <= previous.value.permissions
  }

  /** The state after every step that adds something. */
  ghost function ResolvedState(input: CompileInput): Option<State> {
    var facts := SortedFacts(input.facts);
    var known := FoldAll(AddUnknown, NOTHING, facts);
    if known.None? then None
    else
      var ruled := FoldAll(AddEffect, known.value, MatchingEffects(input.policy, facts));
      if ruled.None? then None
      else FoldAll(AddCriterion, ruled.value, Criteria(Listing(Elements(input.acceptance)), input.trimmed))
  }

  ghost predicate Accepts(input: CompileInput, s: State) {
    ReferencesValid(s) && MaterialDischarged(s) && NoExpansion(input.previous, s.permissions)
  }

  ghost function ContractOf(input: CompileInput, s: State): Contract
    requires InputValid(input)
  {
    Contract(
      ObjectRevision(input.contractId.value, input.contractRevision.value),
      input.subject,
      ObjectRevision(input.policy.id, input.policy.revision),
      if input.previous.Some? then Some(input.previous.value.identity.revision) else None,
      Listing(Elements(input.acceptance)),
      Listing(FactIndex(input.facts).Keys),
      s.invariants, s.obligations, s.claims, s.permissions, s.prohibitions, s.conditions, s.roles, s.capabilities, s.gates)
  }

  ghost function Compiled(input: CompileInput): Option<Contract> {
    if !InputValid(input) || !FactsValid(input.facts, input.subject) then None
    else
      var s := ResolvedState(input);
      if s.None? || !Accepts(input, s.value) then None else Some(ContractOf(input, s.value))
  }
}
