/** What a compiled contract carries, and what a further rule can do to it. */
module ContractLaws {
  import opened Ids
  import opened Vocabulary
  import opened Merging
  import opened Policies
  import opened PolicyLaws

  // ---------------------------------------------------------------- a further rule only strengthens

  /** `b` asks at least as much as `a`, and permits no substitution that `a` refused. */
  ghost predicate DutyAtLeast(a: RoleDuty, b: RoleDuty) {
    && a.capabilities <= b.capabilities
    && TrustStrength(a.trust) <= TrustStrength(b.trust)
    && (a.separation.Some? ==>
          && b.separation.Some?
          && DimensionStrength(a.separation.value.dimension) <= DimensionStrength(b.separation.value.dimension)
          && a.separation.value.differentFrom <= b.separation.value.differentFrom
          && (b.separation.value.humanSubstitutionPermitted ==> a.separation.value.humanSubstitutionPermitted))
  }

  ghost predicate RolesAtLeast(a: map<Role, RoleDuty>, b: map<Role, RoleDuty>) {
    forall role | role in a :: role in b && DutyAtLeast(a[role], b[role])
  }

  ghost predicate GatesAtLeast(a: map<GateKey, set<Id>>, b: map<GateKey, set<Id>>) {
    forall key | key in a :: key in b && a[key] <= b[key]
  }

  lemma {:induction false} MoreRoles(roles: map<Role, RoleDuty>, required: seq<RoleRequirement>)
    requires FoldAll(AddRole, roles, required).Some?
    ensures RolesAtLeast(roles, FoldAll(AddRole, roles, required).value)
  {
    if required != [] {
      MoreRoles(roles, required[..|required| - 1]);
    }
  }

  lemma {:induction false} MoreGates(gates: map<GateKey, set<Id>>, required: seq<GateRequirement>)
    requires FoldAll(AddGate, gates, required).Some?
    ensures GatesAtLeast(gates, FoldAll(AddGate, gates, required).value)
  {
    if required != [] { MoreGates(gates, required[..|required| - 1]); }
  }

  lemma {:induction false} MoreConditions(conditions: map<Action, set<Id>>, stated: seq<AuthorityCondition>)
    requires FoldAll(AddCondition, conditions, stated).Some?
    ensures forall a | a in conditions :: a in FoldAll(AddCondition, conditions, stated).value
              && FoldAll(AddCondition, conditions, stated).value[a] == conditions[a]
  {
    if stated != [] { MoreConditions(conditions, stated[..|stated| - 1]); }
  }

  ghost predicate Extends<K, V>(a: map<K, V>, b: map<K, V>) {
    forall k | k in a :: k in b && b[k] == a[k]
  }

  /** Nothing one state obliges is missing or weaker in the other. */
  ghost predicate AtLeast(a: State, b: State) {
    && RolesAtLeast(a.roles, b.roles) && GatesAtLeast(a.gates, b.gates) && a.capabilities <= b.capabilities
    && Extends(a.invariants, b.invariants) && Extends(a.obligations, b.obligations) && Extends(a.claims, b.claims)
    && Extends(a.conditions, b.conditions) && a.prohibitions <= b.prohibitions && a.discharge <= b.discharge
  }

  lemma RuleNeverWeakens(s: State, e: Effect)
    requires AddEffect(s, e).Some?
    ensures AtLeast(s, AddEffect(s, e).value)
  {
    MoreRoles(s.roles, e.roles);
    MoreGates(s.gates, e.gates);
    MoreConditions(s.conditions, e.conditions);
  }

  /** The effects gathered so far, as a bag: the ids of the rules decide only the order. */
  datatype Bag = Bag(rules: map<Id, Rule>, facts: seq<Fact>, effects: multiset<Effect>)

  function Gather(b: Bag, id: Id): Option<Bag> {
    if id in b.rules && MatchesAny(b.rules[id].when_, b.facts)
    then Some(b.(effects := b.effects + multiset{b.rules[id].effect})) else Some(b)
  }

  predicate AnyBag(b: Bag) { true }

  lemma GatherCommutes()
    ensures Commutes(Gather, AnyBag)
  {
    forall bag, a, b ensures Then(Gather, Gather(bag, a), b) == Then(Gather, Gather(bag, b), a) {
      assert Then(Gather, Gather(bag, a), b).value.effects == Then(Gather, Gather(bag, b), a).value.effects;
    }
  }

  lemma {:induction false} GatheredIsMatching(rules: map<Id, Rule>, ids: seq<Id>, facts: seq<Fact>)
    requires forall id | id in ids :: id in rules
    ensures FoldAll(Gather, Bag(rules, facts, multiset{}), ids) == Some(Bag(rules, facts, multiset(Matching(rules, ids, facts))))
  {
    if ids != [] {
      var before, rule := Matching(rules, ids[..|ids| - 1], facts), rules[ids[|ids| - 1]];
      GatheredIsMatching(rules, ids[..|ids| - 1], facts);
      assert multiset(before + [rule.effect]) == multiset(before) + multiset{rule.effect};
      assert before + [] == before;
    }
  }

  lemma {:induction false} MatchingInAnyOrder(rules: map<Id, Rule>, ids: seq<Id>, reordered: seq<Id>, facts: seq<Fact>)
    requires multiset(ids) == multiset(reordered) && (forall id | id in ids :: id in rules) && forall id | id in reordered :: id in rules
    ensures multiset(Matching(rules, ids, facts)) == multiset(Matching(rules, reordered, facts))
  {
    GatheredIsMatching(rules, ids, facts);
    GatheredIsMatching(rules, reordered, facts);
    GatherCommutes();
    AnyOrder(Gather, AnyBag, Bag(rules, facts, multiset{}), ids, reordered);
  }

  lemma {:induction false} MatchingSame(rules: map<Id, Rule>, more: map<Id, Rule>, ids: seq<Id>, facts: seq<Fact>)
    requires forall id | id in ids :: id in rules && id in more && rules[id] == more[id]
    ensures Matching(rules, ids, facts) == Matching(more, ids, facts)
  {
    if ids != [] { MatchingSame(rules, more, ids[..|ids| - 1], facts); }
  }

  /** Some fact has the condition's key and value, and everything else the condition states. */
  ghost predicate Applies(facts: seq<Fact>, c: Condition) {
    exists f ::
      && f in facts && f.key == c.key && f.value == c.value
      && (c.phase == None || c.phase == Some(f.phase))
      && (c.confidence == None || c.confidence == Some(f.confidence))
      && (c.provenance == None || c.provenance == Some(f.provenance))
      && (c.producer == None || c.producer == Some(f.producer))
  }

  lemma MatchesExactly(c: Condition, facts: seq<Fact>)
    ensures MatchesAny(c, facts) <==> Applies(facts, c)
  {
    if Applies(facts, c) {
      var f :| f in facts && f.key == c.key && f.value == c.value && (c.phase == None || c.phase == Some(f.phase))
        && (c.confidence == None || c.confidence == Some(f.confidence))
        && (c.provenance == None || c.provenance == Some(f.provenance)) && (c.producer == None || c.producer == Some(f.producer));
      assert FactMatches(c, f);
    }
  }

  /** A new rule, wherever its id puts it, adds its own effect or nothing to the bag. */
  lemma {:induction false} NewRuleEffects(policy: Policy, id: Id, rule: Rule, facts: seq<Fact>)
    requires id !in policy.rules
    ensures multiset(MatchingEffects(policy.(rules := policy.rules[id := rule]), facts))
         == multiset(MatchingEffects(policy, facts)) + if Applies(facts, rule.when_) then multiset{rule.effect} else multiset{}
  {
    var more := policy.rules[id := rule];
    var ids := Listing(policy.rules.Keys);
    KeysListed(policy.rules);
    KeysListed(more);
    OneMoreKey(policy.rules, id, rule);
    MatchesExactly(rule.when_, facts);
    MatchingInAnyOrder(more, Listing(more.Keys), ids + [id], facts);
    assert (ids + [id])[..|ids|] == ids;
    MatchingSame(policy.rules, more, ids, facts);
  }

  lemma OneMoreKey(rules: map<Id, Rule>, id: Id, rule: Rule)
    requires id !in rules
    ensures multiset(Listing(rules[id := rule].Keys)) == multiset(Listing(rules.Keys) + [id])
  {
    ListingMultiset(rules.Keys);
    ListingMultiset(rules[id := rule].Keys);
    assert rules[id := rule].Keys == rules.Keys + {id};
    assert multiset(Listing(rules.Keys) + [id]) == multiset(Listing(rules.Keys)) + multiset{id};
  }

  lemma {:induction false} UnknownFactsKeepRoles(s: State, facts: seq<Fact>)
    requires FoldAll(AddUnknown, s, facts).Some?
    ensures FoldAll(AddUnknown, s, facts).value.roles == s.roles
  {
    if facts != [] { UnknownFactsKeepRoles(s, facts[..|facts| - 1]); }
  }

  /** Acceptance criteria touch only the obligations and the claims referred to. */
  lemma {:induction false} CriteriaKeepRest(s: State, cs: seq<Criterion>)
    requires FoldAll(AddCriterion, s, cs).Some?
    ensures var t := FoldAll(AddCriterion, s, cs).value; t == s.(obligations := t.obligations, references := t.references)
  {
    if cs != [] { CriteriaKeepRest(s, cs[..|cs| - 1]); }
  }

  /** What a policy's rules come to once the unknown facts are in. */
  ghost function RuledState(input: CompileInput): Option<State> {
    var known := FoldAll(AddUnknown, NOTHING, SortedFacts(input.facts));
    if known.None? then None else FoldAll(AddEffect, known.value, MatchingEffects(input.policy, SortedFacts(input.facts)))
  }

  lemma ResolvedFromRuled(input: CompileInput)
    requires ResolvedState(input).Some?
    ensures RuledState(input).Some?
    ensures var t := ResolvedState(input).value; t == RuledState(input).value.(obligations := t.obligations, references := t.references)
  {
    CriteriaKeepRest(RuledState(input).value, Criteria(Listing(Elements(input.acceptance)), input.trimmed));
  }

  function WithRule(input: CompileInput, id: Id, rule: Rule): CompileInput {
    input.(policy := input.policy.(rules := input.policy.rules[id := rule]))
  }

  /** What the rule itself permits, where it matches. */
  ghost function PermittedBy(rule: Rule, facts: seq<Fact>): set<Action> {
    if Applies(facts, rule.when_) then Elements(rule.effect.permissions) else {}
  }

  lemma LastEffect(s: State, effects: seq<Effect>, e: Effect)
    ensures FoldAll(AddEffect, s, effects + [e]) == Then(AddEffect, FoldAll(AddEffect, s, effects), e)
  {
    assert (effects + [e])[..|effects|] == effects;
  }

  /** A new rule that matches comes to its effect after all the others'; one that does not, to nothing. */
  lemma RuledStep(input: CompileInput, id: Id, rule: Rule)
    requires id !in input.policy.rules && RuledState(WithRule(input, id, rule)).Some?
    ensures RuledState(input).Some?
    ensures RuledState(WithRule(input, id, rule))
         == if Applies(SortedFacts(input.facts), rule.when_) then AddEffect(RuledState(input).value, rule.effect) else RuledState(input)
  {
    var facts := SortedFacts(input.facts);
    var known := FoldAll(AddUnknown, NOTHING, facts).value;
    UnknownFactsKeepRoles(NOTHING, facts);
    var fewer := MatchingEffects(input.policy, facts);
    var more := MatchingEffects(WithRule(input, id, rule).policy, facts);
    NewRuleEffects(input.policy, id, rule, facts);
    if Applies(facts, rule.when_) {
      RulesInAnyOrder(known, more, fewer + [rule.effect]);
      LastEffect(known, fewer, rule.effect);
    } else {
      RulesInAnyOrder(known, more, fewer);
    }
  }

  /** An effect adds exactly the permissions it states. */
  lemma EffectPermits(s: State, e: Effect)
    requires AddEffect(s, e).Some?
    ensures AddEffect(s, e).value.permissions == s.permissions + Elements(e.permissions)
  {
  }

  lemma RuledWithRule(input: CompileInput, id: Id, rule: Rule)
    requires id !in input.policy.rules && RuledState(WithRule(input, id, rule)).Some?
    ensures RuledState(input).Some? && AtLeast(RuledState(input).value, RuledState(WithRule(input, id, rule)).value)
    ensures RuledState(WithRule(input, id, rule)).value.permissions
         == RuledState(input).value.permissions + PermittedBy(rule, SortedFacts(input.facts))
  {
    RuledStep(input, id, rule);
    if Applies(SortedFacts(input.facts), rule.when_) {
      RuleNeverWeakens(RuledState(input).value, rule.effect);
      EffectPermits(RuledState(input).value, rule.effect);
    }
  }

  // ---------------------------------------------------------------- acceptance becomes obligations

  lemma {:induction false} CriteriaBecomeObligations(s: State, cs: seq<Criterion>, i: nat)
    requires FoldAll(AddCriterion, s, cs).Some? && i < |cs| && cs[i].trimmed.Some?
    ensures var t := FoldAll(AddCriterion, s, cs).value;
            && Acceptance(cs[i].trimmed.value) in t.obligations
            && t.obligations[Acceptance(cs[i].trimmed.value)] == Requirement(Prose(cs[i].text), s.discharge, true)
  {
    var n := |cs| - 1;
    CriteriaKeepRest(s, cs[..n]);
    if i < n { CriteriaBecomeObligations(s, cs[..n], i); }
  }

  lemma CriterionListed(input: CompileInput, text: Id) returns (i: nat)
    requires text in input.acceptance
    ensures i < |Criteria(Listing(Elements(input.acceptance)), input.trimmed)|
    ensures Criteria(Listing(Elements(input.acceptance)), input.trimmed)[i] == CriterionOf(text, input.trimmed)
  {
    var texts := Listing(Elements(input.acceptance));
    ListingLists(Elements(input.acceptance));
    assert text in Elements(input.acceptance);
    assert text in Elements(texts);
    i :| 0 <= i < |texts| && texts[i] == text;
  }

  lemma AcceptedCriterion(input: CompileInput, text: Id)
    requires ResolvedState(input).Some? && text in input.acceptance && text in input.trimmed
    ensures var t := ResolvedState(input).value;
            && Acceptance(input.trimmed[text]) in t.obligations
            && t.obligations[Acceptance(input.trimmed[text])] == Requirement(Prose(text), t.discharge, true)
  {
    var i := CriterionListed(input, text);
    CriteriaBecomeObligations(RuledState(input).value, Criteria(Listing(Elements(input.acceptance)), input.trimmed), i);
    ResolvedFromRuled(input);
  }

  /** The obligation a criterion that says anything becomes. */
  ghost function ObligationOf(s: State, c: Criterion): Requirement {
    Requirement(Prose(c.text), s.discharge, true)
  }

  /** Criteria of one trimmed text are the same text, and an obligation already under that identity is the criterion's own. */
  ghost predicate CriteriaAgree(s: State, cs: seq<Criterion>) {
    && (forall i, j | 0 <= i < j < |cs| && cs[i].trimmed.Some? && cs[i].trimmed == cs[j].trimmed :: cs[i].text == cs[j].text)
    && forall i | 0 <= i < |cs| && cs[i].trimmed.Some? && Acceptance(cs[i].trimmed.value) in s.obligations ::
         s.obligations[Acceptance(cs[i].trimmed.value)] == ObligationOf(s, cs[i])
  }

  /** What the criteria leave of the obligations: those there were, and one under each criterion's identity. */
  lemma {:induction false} ObligationsThen(s: State, cs: seq<Criterion>, id: ReqId)
    requires FoldAll(AddCriterion, s, cs).Some?
    ensures var t := FoldAll(AddCriterion, s, cs).value;
            && (id in t.obligations <==> id in s.obligations || exists i :: 0 <= i < |cs| && cs[i].trimmed.Some? && id == Acceptance(cs[i].trimmed.value))
            && (id in s.obligations ==> t.obligations[id] == s.obligations[id])
  {
    if cs != [] {
      var n := |cs| - 1;
      ObligationsThen(s, cs[..n], id);
      if i :| 0 <= i < n && cs[..n][i].trimmed.Some? && id == Acceptance(cs[..n][i].trimmed.value) { assert cs[i] == cs[..n][i]; }
      if i :| 0 <= i < n && cs[i].trimmed.Some? && id == Acceptance(cs[i].trimmed.value) { assert cs[i] == cs[..n][i]; }
    }
  }

  /** One more criterion is taken exactly when nothing under its identity says otherwise. */
  lemma TakesCriterion(s: State, c: Criterion)
    requires c.trimmed.Some?
    ensures AddCriterion(s, c).Some? <==>
              (Acceptance(c.trimmed.value) in s.obligations ==> s.obligations[Acceptance(c.trimmed.value)] == ObligationOf(s, c))
  {
    assert Acceptance(c.trimmed.value) in map[Acceptance(c.trimmed.value) := ObligationOf(s, c)];
  }

  lemma {:induction false} LastAgrees(s: State, cs: seq<Criterion>, n: nat)
    requires n + 1 == |cs| && FoldAll(AddCriterion, s, cs[..n]).Some? && CriteriaAgree(s, cs[..n])
    ensures AddCriterion(FoldAll(AddCriterion, s, cs[..n]).value, cs[n]).Some? <==> CriteriaAgree(s, cs)
  {
    var t := FoldAll(AddCriterion, s, cs[..n]).value;
    CriteriaKeepRest(s, cs[..n]);
    assert forall i | 0 <= i < n :: cs[..n][i] == cs[i];
    if cs[n].trimmed.Some? {
      TakesCriterion(t, cs[n]);
      ObligationsThen(s, cs[..n], Acceptance(cs[n].trimmed.value));
      forall i | 0 <= i < n && cs[i].trimmed == cs[n].trimmed
        ensures t.obligations[Acceptance(cs[n].trimmed.value)] == ObligationOf(s, cs[i])
      {
        CriteriaBecomeObligations(s, cs[..n], i);
      }
    }
  }

  /** The criteria step succeeds exactly when the criteria agree with each other and with what is there. */
  lemma {:induction false} CriteriaSucceedExactly(s: State, cs: seq<Criterion>)
    ensures FoldAll(AddCriterion, s, cs).Some? <==> CriteriaAgree(s, cs)
  {
    if cs != [] {
      var n := |cs| - 1;
      CriteriaSucceedExactly(s, cs[..n]);
      assert forall i | 0 <= i < n :: cs[..n][i] == cs[i];
      if CriteriaAgree(s, cs[..n]) { LastAgrees(s, cs, n); }
    }
  }

  /** The identity of an obligation some listed criterion becomes. */
  ghost predicate FromCriterion(input: CompileInput, id: ReqId) {
    exists text :: text in input.acceptance && text in input.trimmed && id == Acceptance(input.trimmed[text])
  }

  /** Every obligation stands, saying what it said and as material, and asks at least the claims it asked. */
  ghost predicate ObligationsAtLeast(a: map<ReqId, Requirement>, b: map<ReqId, Requirement>) {
    forall id | id in a :: id in b && b[id].statement == a[id].statement && b[id].material == a[id].material && a[id].claims <= b[id].claims
  }

  /** A resolved obligation is one the rules or the facts left, or a criterion's own. */
  lemma ResolvedObligation(input: CompileInput, id: ReqId)
    requires ResolvedState(input).Some? && id in ResolvedState(input).value.obligations
    ensures RuledState(input).Some?
    ensures id in RuledState(input).value.obligations || FromCriterion(input, id)
  {
    var texts := Listing(Elements(input.acceptance));
    var cs := Criteria(texts, input.trimmed);
    ResolvedFromRuled(input);
    ObligationsThen(RuledState(input).value, cs, id);
    if id !in RuledState(input).value.obligations {
      var i :| 0 <= i < |cs| && cs[i].trimmed.Some? && id == Acceptance(cs[i].trimmed.value);
      ListingLists(Elements(input.acceptance));
      assert texts[i] in Elements(texts);
    }
  }

  lemma RuledObligation(input: CompileInput, id: ReqId)
    requires ResolvedState(input).Some? && RuledState(input).Some? && id in RuledState(input).value.obligations
    ensures id in ResolvedState(input).value.obligations
    ensures ResolvedState(input).value.obligations[id] == RuledState(input).value.obligations[id]
  {
    ObligationsThen(RuledState(input).value, Criteria(Listing(Elements(input.acceptance)), input.trimmed), id);
  }

  /** One obligation of the contract before and after a rule is added. */
  lemma ObligationStands(input: CompileInput, id: Id, rule: Rule, o: ReqId)
    requires id !in input.policy.rules && ResolvedState(input).Some? && ResolvedState(WithRule(input, id, rule)).Some?
    requires o in ResolvedState(input).value.obligations
    ensures var a, b := ResolvedState(input).value, ResolvedState(WithRule(input, id, rule)).value;
            && o in b.obligations && b.obligations[o].statement == a.obligations[o].statement
            && b.obligations[o].material == a.obligations[o].material && a.obligations[o].claims <= b.obligations[o].claims
            && (!FromCriterion(input, o) ==> b.obligations[o] == a.obligations[o])
  {
    var more := WithRule(input, id, rule);
    ResolvedFromRuled(more);
    RuledWithRule(input, id, rule);
    ResolvedObligation(input, o);
    if o in RuledState(input).value.obligations {
      RuledObligation(input, o);
      RuledObligation(more, o);
    } else {
      var text :| text in input.acceptance && text in input.trimmed && o == Acceptance(input.trimmed[text]);
      AcceptedCriterion(input, text);
      AcceptedCriterion(more, text);
      ResolvedFromRuled(input);
    }
  }

  /**
    Adding a rule to a policy, under any new id, where both policies compile. Every role is
    still required, with at least the capabilities, trust, dimension and peers it had, and
    with no substitution it did not permit; gates, prohibitions, conditions, claims and
    invariants stand. Every obligation stands: unchanged, or a criterion's own that asks more
    claims to discharge it. The permissions are those there were and those the rule states.
   */
  lemma AddingARuleNeverWeakens(input: CompileInput, id: Id, rule: Rule)
    requires id !in input.policy.rules && Compiled(input).Some? && Compiled(WithRule(input, id, rule)).Some?
    ensures var a, b := Compiled(input).value, Compiled(WithRule(input, id, rule)).value;
            && RolesAtLeast(a.roles, b.roles) && GatesAtLeast(a.gates, b.gates) && a.capabilities <= b.capabilities
            && a.prohibitions <= b.prohibitions && Extends(a.conditions, b.conditions) && Extends(a.claims, b.claims)
            && Extends(a.invariants, b.invariants)
            && ObligationsAtLeast(a.obligations, b.obligations)
            && (forall o | o in a.obligations && !FromCriterion(input, o) :: b.obligations[o] == a.obligations[o])
            && b.permissions == a.permissions + PermittedBy(rule, SortedFacts(input.facts))
  {
    ResolvedFromRuled(input);
    ResolvedFromRuled(WithRule(input, id, rule));
    RuledWithRule(input, id, rule);
    var a, b := Compiled(input).value, Compiled(WithRule(input, id, rule)).value;
    forall o | o in a.obligations
      ensures o in b.obligations && b.obligations[o].statement == a.obligations[o].statement
      ensures b.obligations[o].material == a.obligations[o].material && a.obligations[o].claims <= b.obligations[o].claims
      ensures !FromCriterion(input, o) ==> b.obligations[o] == a.obligations[o]
    {
      ObligationStands(input, id, rule, o);
    }
  }

  /** No two criteria that say anything trim to the same text, and policy obliges nothing else under a criterion's identity. */
  ghost predicate AcceptanceUnambiguous(input: CompileInput, ruled: State) {
    && (forall a, b | a in input.acceptance && b in input.acceptance && a in input.trimmed && b in input.trimmed
          && input.trimmed[a] == input.trimmed[b] :: a == b)
    && forall a | a in input.acceptance && a in input.trimmed && Acceptance(input.trimmed[a]) in ruled.obligations ::
         ruled.obligations[Acceptance(input.trimmed[a])] == Requirement(Prose(a), ruled.discharge, true)
  }

  /**
    When acceptance criteria refuse a contract the rules allow: exactly when two of them differ
    only in surrounding space, or one meets an obligation of its own identity that says
    anything else.
   */
  lemma AcceptanceResolvesExactly(input: CompileInput)
    requires RuledState(input).Some?
    ensures ResolvedState(input).Some? <==> AcceptanceUnambiguous(input, RuledState(input).value)
  {
    var cs := Criteria(Listing(Elements(input.acceptance)), input.trimmed);
    var ruled := RuledState(input).value;
    CriteriaSucceedExactly(ruled, cs);
    if CriteriaAgree(ruled, cs) { AgreementMeans(input, ruled); }
    if AcceptanceUnambiguous(input, ruled) { UnambiguousAgrees(input, ruled); }
  }

  lemma UnambiguousAgrees(input: CompileInput, ruled: State)
    requires AcceptanceUnambiguous(input, ruled)
    ensures CriteriaAgree(ruled, Criteria(Listing(Elements(input.acceptance)), input.trimmed))
  {
    var texts := Listing(Elements(input.acceptance));
    ListingLists(Elements(input.acceptance));
    forall i | 0 <= i < |texts| ensures texts[i] in input.acceptance { assert texts[i] in Elements(texts); }
  }

  lemma AgreementMeans(input: CompileInput, ruled: State)
    requires CriteriaAgree(ruled, Criteria(Listing(Elements(input.acceptance)), input.trimmed))
    ensures AcceptanceUnambiguous(input, ruled)
  {
    forall a, b | a in input.acceptance && b in input.acceptance && a in input.trimmed && b in input.trimmed && input.trimmed[a] == input.trimmed[b]
      ensures a == b
    {
      var i := CriterionListed(input, a);
      var j := CriterionListed(input, b);
    }
    forall a | a in input.acceptance && a in input.trimmed && Acceptance(input.trimmed[a]) in ruled.obligations
      ensures ruled.obligations[Acceptance(input.trimmed[a])] == Requirement(Prose(a), ruled.discharge, true)
    {
      var i := CriterionListed(input, a);
    }
  }

  /** A first contract of a policy without rules, on these criteria; every text trims to the first one. */
  function Padded(acceptance: seq<Id>): CompileInput {
    var subject := Subject(Some(0), Some(0));
    CompileInput(Some(0), Some(0), Some(0), acceptance, map[0 := 0, 1 := 0], subject, Predicted, [0], subject, Policy(0, 0, map[]), [], None)
  }

  lemma {:induction false} PaddedRuled(acceptance: seq<Id>)
    ensures RuledState(Padded(acceptance)) == Some(NOTHING)
  {
    var input := Padded(acceptance);
    assert SortedFacts(input.facts) == [];
    assert MatchingEffects(input.policy, []) == [];
    assert FoldAll(AddUnknown, NOTHING, []) == Some(NOTHING);
    assert FoldAll(AddEffect, NOTHING, []) == Some(NOTHING);
  }

  /** Two criteria that differ only in surrounding space are refused together, and taken one by one. */
  lemma PaddedTwinsRefused()
    ensures Compiled(Padded([0, 1])).None? && Compiled(Padded([0])).Some? && Compiled(Padded([1])).Some?
  {
    PaddedRuled([0, 1]);
    AcceptanceResolvesExactly(Padded([0, 1]));
    assert 0 in [0, 1] && 1 in [0, 1];
    PaddedAlone(0);
    PaddedAlone(1);
  }

  lemma PaddedAlone(text: Id)
    requires text == 0 || text == 1
    ensures Compiled(Padded([text])).Some?
  {
    var input := Padded([text]);
    PaddedRuled([text]);
    AcceptanceResolvesExactly(input);
    ResolvedFromRuled(input);
    var s := ResolvedState(input).value;
    assert s.references == {} by { NothingDischarged(NOTHING, Criteria(Listing(Elements(input.acceptance)), input.trimmed)); }
  }

  /** Where policy names no claim to discharge acceptance, the criteria refer to none. */
  lemma {:induction false} NothingDischarged(s: State, cs: seq<Criterion>)
    requires FoldAll(AddCriterion, s, cs).Some? && s.discharge == {}
    ensures FoldAll(AddCriterion, s, cs).value.references == s.references
  {
    if cs != [] {
      CriteriaKeepRest(s, cs[..|cs| - 1]);
      NothingDischarged(s, cs[..|cs| - 1]);
    }
  }

  // ---------------------------------------------------------------- every claim referred to is defined

  /** What obligations, gates and criteria name is on the list of references. */
  ghost predicate Referred(s: State) {
    forall id | id in s.obligations :: s.obligations[id].claims <= s.references
  }

  lemma {:induction false} RulesRefer(s: State, effects: seq<Effect>)
    requires Referred(s) && FoldAll(AddEffect, s, effects).Some?
    ensures Referred(FoldAll(AddEffect, s, effects).value)
  {
    if effects != [] {
      RulesRefer(s, effects[..|effects| - 1]);
    }
  }

  lemma {:induction false} FactsRefer(s: State, facts: seq<Fact>)
    requires Referred(s) && FoldAll(AddUnknown, s, facts).Some?
    ensures Referred(FoldAll(AddUnknown, s, facts).value)
  {
    if facts != [] { FactsRefer(s, facts[..|facts| - 1]); }
  }

  lemma {:induction false} CriteriaRefer(s: State, cs: seq<Criterion>)
    requires Referred(s) && FoldAll(AddCriterion, s, cs).Some?
    ensures Referred(FoldAll(AddCriterion, s, cs).value)
  {
    if cs != [] { CriteriaRefer(s, cs[..|cs| - 1]); }
  }

  lemma ResolvedRefers(input: CompileInput)
    requires ResolvedState(input).Some?
    ensures Referred(ResolvedState(input).value)
  {
    var facts := SortedFacts(input.facts);
    var known := FoldAll(AddUnknown, NOTHING, facts).value;
    FactsRefer(NOTHING, facts);
    RulesRefer(known, MatchingEffects(input.policy, facts));
    CriteriaRefer(RuledState(input).value, Criteria(Listing(Elements(input.acceptance)), input.trimmed));
  }

  /**
    A compiled contract that can authorize anything obliges every non-blank criterion by its
    own material obligation, with at least one claim to discharge it and every claim defined.
   */
  lemma CriteriaAreObliged(input: CompileInput, text: Id)
    requires Compiled(input).Some? && text in input.acceptance && text in input.trimmed
    ensures var c := Compiled(input).value;
            var id := Acceptance(input.trimmed[text]);
            && id in c.obligations && c.obligations[id].material && c.obligations[id].statement == Prose(text)
            && c.obligations[id].claims <= c.claims.Keys
            && (c.permissions != {} || c.conditions != map[] ==> c.obligations[id].claims != {})
  {
    AcceptedCriterion(input, text);
    ResolvedRefers(input);
  }

  /** No material obligation of a contract that can authorize anything is left without a defined claim to discharge it. */
  lemma MaterialIsDischarged(input: CompileInput, id: ReqId)
    requires Compiled(input).Some? && id in Compiled(input).value.obligations && Compiled(input).value.obligations[id].material
    requires Compiled(input).value.permissions != {} || Compiled(input).value.conditions != map[]
    ensures exists claim :: claim in Compiled(input).value.obligations[id].claims && claim in Compiled(input).value.claims
  {
    var c := Compiled(input).value;
    ResolvedRefers(input);
    var claim :| claim in c.obligations[id].claims;
  }

  // ---------------------------------------------------------------- what is on the list of references

  ghost predicate NamesClaim(m: map<ReqId, Requirement>, c: Id) {
    exists id :: id in m && c in m[id].claims
  }

  ghost predicate GatesName(gates: map<GateKey, set<Id>>, c: Id) {
    exists key :: key in gates && c in gates[key]
  }

  /** An invariant, an obligation or a gate names the claim. */
  ghost predicate Named(s: State, c: Id) {
    NamesClaim(s.invariants, c) || NamesClaim(s.obligations, c) || GatesName(s.gates, c)
  }

  ghost predicate ReferencesExact(s: State) {
    forall c :: c in s.references <==> Named(s, c)
  }

  lemma MergedNames(m: map<ReqId, Requirement>, a: map<ReqId, Requirement>, c: Id)
    requires Agree(m, a)
    ensures NamesClaim(m + a, c) <==> NamesClaim(m, c) || NamesClaim(a, c)
  {
    if id :| id in m && c in m[id].claims { assert id in m + a && (m + a)[id] == m[id]; }
    if id :| id in a && c in a[id].claims { assert id in m + a && (m + a)[id] == a[id]; }
  }

  lemma NormalizedNames(m: map<ReqId, PolicyRequirement>, c: Id)
    ensures NamesClaim(NormalizeAll(m), c) <==> c in ClaimsNamed(m)
  {
    if id :| id in m && c in m[id].claims { assert id in NormalizeAll(m) && c in NormalizeAll(m)[id].claims; }
  }

  lemma GateAdded(gates: map<GateKey, set<Id>>, g: GateRequirement, c: Id)
    requires AddGate(gates, g).Some?
    ensures GatesName(AddGate(gates, g).value, c) <==> GatesName(gates, c) || c in g.claims
  {
    var after := AddGate(gates, g).value;
    var key := GateKey(g.kind, g.action);
    if k :| k in gates && c in gates[k] { assert k in after && c in after[k]; }
    if c in g.claims { assert key in after && c in after[key]; }
  }

  lemma {:induction false} GatesAdded(gates: map<GateKey, set<Id>>, stated: seq<GateRequirement>, c: Id)
    requires FoldAll(AddGate, gates, stated).Some?
    ensures GatesName(FoldAll(AddGate, gates, stated).value, c) <==> GatesName(gates, c) || c in GateClaims(stated)
  {
    if stated != [] {
      var n := |stated| - 1;
      GatesAdded(gates, stated[..n], c);
      GateAdded(FoldAll(AddGate, gates, stated[..n]).value, stated[n], c);
      assert stated == stated[..n] + [stated[n]];
      if c in GateClaims(stated) {
        var g :| g in stated && c in g.claims;
        assert g in stated[..n] || g == stated[n];
      }
    }
  }

  lemma EffectNames(s: State, e: Effect)
    requires ReferencesExact(s) && AddEffect(s, e).Some?
    ensures ReferencesExact(AddEffect(s, e).value)
  {
    forall c ensures c in AddEffect(s, e).value.references <==> Named(AddEffect(s, e).value, c) {
      MergedNames(s.invariants, NormalizeAll(e.invariants), c);
      MergedNames(s.obligations, NormalizeAll(e.obligations), c);
      NormalizedNames(e.invariants, c);
      NormalizedNames(e.obligations, c);
      GatesAdded(s.gates, e.gates, c);
    }
  }

  lemma ObligationNames(s: State, id: ReqId, r: Requirement, c: Id)
    requires Agree(s.obligations, map[id := r])
    ensures NamesClaim(s.obligations + map[id := r], c) <==> NamesClaim(s.obligations, c) || c in r.claims
  {
    MergedNames(s.obligations, map[id := r], c);
    if c in r.claims { assert id in map[id := r] && c in map[id := r][id].claims; }
  }

  lemma {:induction false} RulesName(s: State, effects: seq<Effect>)
    requires ReferencesExact(s) && FoldAll(AddEffect, s, effects).Some?
    ensures ReferencesExact(FoldAll(AddEffect, s, effects).value)
  {
    if effects != [] {
      RulesName(s, effects[..|effects| - 1]);
      EffectNames(FoldAll(AddEffect, s, effects[..|effects| - 1]).value, effects[|effects| - 1]);
    }
  }

  lemma {:induction false} FactsName(s: State, facts: seq<Fact>)
    requires ReferencesExact(s) && FoldAll(AddUnknown, s, facts).Some?
    ensures ReferencesExact(FoldAll(AddUnknown, s, facts).value)
  {
    if facts != [] {
      var f := facts[|facts| - 1];
      FactsName(s, facts[..|facts| - 1]);
      var t := FoldAll(AddUnknown, s, facts[..|facts| - 1]).value;
      if f.value.FactUnknown? {
        forall c ensures c in AddUnknown(t, f).value.references <==> Named(AddUnknown(t, f).value, c) {
          ObligationNames(t, Uncertain(f.id), Requirement(ResolveUncertainty(f.key), {}, false), c);
        }
      }
    }
  }

  lemma {:induction false} CriteriaName(s: State, cs: seq<Criterion>)
    requires ReferencesExact(s) && FoldAll(AddCriterion, s, cs).Some?
    ensures ReferencesExact(FoldAll(AddCriterion, s, cs).value)
  {
    if cs != [] {
      var n := |cs| - 1;
      CriteriaName(s, cs[..n]);
      var t := FoldAll(AddCriterion, s, cs[..n]).value;
      if cs[n].trimmed.Some? {
        forall c ensures c in AddCriterion(t, cs[n]).value.references <==> Named(AddCriterion(t, cs[n]).value, c) {
          ObligationNames(t, Acceptance(cs[n].trimmed.value), ObligationOf(t, cs[n]), c);
        }
      }
    }
  }

  lemma ResolvedNames(input: CompileInput)
    requires ResolvedState(input).Some?
    ensures ReferencesExact(ResolvedState(input).value)
  {
    var facts := SortedFacts(input.facts);
    var known := FoldAll(AddUnknown, NOTHING, facts).value;
    assert ReferencesExact(NOTHING);
    FactsName(NOTHING, facts);
    RulesName(known, MatchingEffects(input.policy, facts));
    CriteriaName(RuledState(input).value, Criteria(Listing(Elements(input.acceptance)), input.trimmed));
  }

  /** Every claim an invariant, an obligation, a gate or an authority condition names is defined. */
  ghost predicate EveryClaimDefined(s: State) {
    && (forall c | Named(s, c) :: c in s.claims)
    && forall a, c | a in s.conditions && c in s.conditions[a] :: c in s.claims
  }

  /**
    When a resolved policy is refused after all. It compiles exactly when no action is both
    permitted and prohibited, every claim anything names is defined, nothing is permitted that
    the contract before it did not permit, and either nothing can be authorized or every
    material obligation has a claim to discharge it.
   */
  lemma CompiledExactly(input: CompileInput)
    requires InputValid(input) && FactsValid(input.facts, input.subject) && ResolvedState(input).Some?
    ensures var s := ResolvedState(input).value;
            Compiled(input).Some? <==>
              && (forall a :: !(a in s.permissions && a in s.prohibitions))
              && EveryClaimDefined(s)
              && (input.previous.Some? ==> s.permissions <= input.previous.value.permissions)
              && (s.permissions != {} || s.conditions != map[] ==>
                    forall id | id in s.obligations && s.obligations[id].material :: s.obligations[id].claims != {})
  {
    var s := ResolvedState(input).value;
    ResolvedNames(input);
    assert s.references <= s.claims.Keys <==> forall c | Named(s, c) :: c in s.claims by {
      if forall c | Named(s, c) :: c in s.claims {
        forall c | c in s.references ensures c in s.claims { assert Named(s, c); }
      }
      if s.references <= s.claims.Keys {
        forall c | Named(s, c) ensures c in s.claims { assert c in s.references; }
      }
    }
  }

  // ---------------------------------------------------------------- the order of the inputs

  lemma {:induction false} FactIndexHolds(facts: seq<Fact>, subject: Subject, f: Fact)
    requires FactsValid(facts, subject)
    ensures f in facts <==> f.id in FactIndex(facts) && FactIndex(facts)[f.id] == f
  {
    if facts != [] {
      FactIndexHolds(facts[..|facts| - 1], subject, f);
      assert f in facts <==> f in facts[..|facts| - 1] || f == facts[|facts| - 1];
    }
  }

  lemma {:induction false} FactIndexIds(facts: seq<Fact>)
    ensures forall id | id in FactIndex(facts) :: FactIndex(facts)[id].id == id && FactIndex(facts)[id] in facts
  {
    if facts != [] { FactIndexIds(facts[..|facts| - 1]); }
  }

  lemma {:induction false} SameFactIndex(a: seq<Fact>, b: seq<Fact>, subject: Subject)
    requires FactsValid(a, subject) && FactsValid(b, subject) && forall f :: f in a <==> f in b
    ensures FactIndex(a) == FactIndex(b)
  {
    FactIndexIds(a);
    FactIndexIds(b);
    forall id ensures id in FactIndex(a) <==> id in FactIndex(b) {
      if id in FactIndex(a) { FactIndexHolds(b, subject, FactIndex(a)[id]); }
      if id in FactIndex(b) { FactIndexHolds(a, subject, FactIndex(b)[id]); }
    }
    forall id | id in FactIndex(a) ensures FactIndex(a)[id] == FactIndex(b)[id] {
      FactIndexHolds(b, subject, FactIndex(a)[id]);
    }
  }

  /** However the facts and the criteria are listed, the same contract is compiled. */
  lemma {:induction false} InputOrderIrrelevant(input: CompileInput, facts: seq<Fact>, acceptance: seq<Id>)
    requires FactsValid(input.facts, input.subject) && FactsValid(facts, input.subject) && forall f :: f in input.facts <==> f in facts
    requires Elements(acceptance) == Elements(input.acceptance)
    ensures Compiled(input.(facts := facts, acceptance := acceptance)) == Compiled(input)
  {
    SameFactIndex(input.facts, facts, input.subject);
    assert acceptance == [] <==> Elements(acceptance) == {} by {
      if acceptance != [] { assert acceptance[0] in Elements(acceptance); }
    }
    assert input.acceptance == [] <==> Elements(input.acceptance) == {} by {
      if input.acceptance != [] { assert input.acceptance[0] in Elements(input.acceptance); }
    }
  }
}
