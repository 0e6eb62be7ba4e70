/** From acceptance criteria to authorizations: what an authorized action always has behind it. */
module AuthorityLaws {
  import opened Ids
  import opened Vocabulary
  import opened Policies
  import opened ContractLaws
  import opened Authority

  // ---------------------------------------------------------------- the evidence

  /**
    An item of a bundle that names the contract's own subject, identity and policy, about the
    claim, of the class the claim requires, and, where that is human approval, from a human.
   */
  ghost predicate Bears(input: Input, claim: Id, required: RequiredClaim, item: Item) {
    && item.claim == claim && item.evidenceClass == required.evidenceClass
    && (required.evidenceClass == HumanApproval ==> item.producer.kind == Human)
    && exists b, e ::
         && b in input.bundles && e in input.bundles[b].evidence && input.bundles[b].evidence[e] == item
         && input.bundles[b].subject.repository == input.contract.subject.repository
         && input.bundles[b].subject.revision == input.contract.subject.revision
         && input.bundles[b].contract.id == input.contract.identity.id && input.bundles[b].contract.revision == input.contract.identity.revision
         && input.bundles[b].policy.id == input.contract.policy.id && input.bundles[b].policy.revision == input.contract.policy.revision
  }

  ghost predicate Fails(input: Input, claim: Id, required: RequiredClaim) {
    exists item :: Bears(input, claim, required, item) && item.lifecycle == Valid && item.outcome == Failed
  }

  /** A claim that asks independence is passed by nothing the producer of the change supplies. */
  ghost predicate Passes(input: Input, claim: Id, required: RequiredClaim) {
    exists item :: Bears(input, claim, required, item) && item.lifecycle == Valid && item.outcome == Passed
      && (required.independent ==> item.producer.id != input.changeProducer.id)
  }

  ghost predicate Lapses(input: Input, claim: Id, required: RequiredClaim) {
    exists item :: Bears(input, claim, required, item) && item.lifecycle == Stale
  }

  lemma BoundExactly(b: Bundle, w: WorkContract)
    ensures BoundTo(b, w) <==>
              && b.subject.repository == w.subject.repository && b.subject.revision == w.subject.revision
              && b.contract.id == w.identity.id && b.contract.revision == w.identity.revision
              && b.policy.id == w.policy.id && b.policy.revision == w.policy.revision
  {
  }

  lemma SignsExactly(input: Input, claim: Id, required: RequiredClaim)
    ensures Found(input, claim, required, Failing) <==> Fails(input, claim, required)
    ensures Found(input, claim, required, Passing) <==> Passes(input, claim, required)
    ensures Found(input, claim, required, Lapsed) <==> Lapses(input, claim, required)
  {
    forall sign ensures Found(input, claim, required, sign) <==> exists item :: Bears(input, claim, required, item) && Shows(item, required, input.changeProducer, sign) {
      FoundExactly(input, claim, required, sign);
    }
  }

  lemma FoundExactly(input: Input, claim: Id, required: RequiredClaim, sign: Sign)
    ensures Found(input, claim, required, sign) <==> exists item :: Bears(input, claim, required, item) && Shows(item, required, input.changeProducer, sign)
  {
    if Found(input, claim, required, sign) {
      var b, e :| b in input.bundles && e in input.bundles[b].evidence
        && ItemShows(input, input.bundles[b], input.bundles[b].evidence[e], claim, required, sign);
      BoundExactly(input.bundles[b], input.contract);
      assert Bears(input, claim, required, input.bundles[b].evidence[e]);
    }
    if item :| Bears(input, claim, required, item) && Shows(item, required, input.changeProducer, sign) {
      var b, e :|
        && b in input.bundles && e in input.bundles[b].evidence && input.bundles[b].evidence[e] == item
        && input.bundles[b].subject.repository == input.contract.subject.repository
        && input.bundles[b].subject.revision == input.contract.subject.revision
        && input.bundles[b].contract.id == input.contract.identity.id && input.bundles[b].contract.revision == input.contract.identity.revision
        && input.bundles[b].policy.id == input.contract.policy.id && input.bundles[b].policy.revision == input.contract.policy.revision;
      BoundExactly(input.bundles[b], input.contract);
      assert ItemShows(input, input.bundles[b], input.bundles[b].evidence[e], claim, required, sign);
    }
  }

  // ---------------------------------------------------------------- what authorizes

  /** Evidence bound to exactly this contract passes the claim, from an eligible producer, and none fails it. */
  ghost predicate Proven(input: Input, claim: Id, required: RequiredClaim) {
    Passes(input, claim, required) && !Fails(input, claim, required)
  }

  lemma NoClaimIn(input: Input, required: set<Id>, state: ClaimState)
    requires required <= input.contract.claims.Keys
    ensures ClaimsIn(input, required, state) == {} <==> forall c | c in required :: StateOfClaim(input, c, input.contract.claims[c]) != state
  {
    forall c | c in required && StateOfClaim(input, c, input.contract.claims[c]) == state ensures ClaimsIn(input, required, state) != {} {
      assert ClaimName(c) in ClaimsIn(input, required, state);
    }
  }

  lemma NoneOtherThanProven(input: Input, required: set<Id>)
    requires required <= input.contract.claims.Keys
    ensures (ClaimsIn(input, required, ClaimBlocked) == {} && ClaimsIn(input, required, ClaimStale) == {} && ClaimsIn(input, required, ClaimMissing) == {})
       <==> forall c | c in required :: Proven(input, c, input.contract.claims[c])
  {
    NoClaimIn(input, required, ClaimBlocked);
    NoClaimIn(input, required, ClaimStale);
    NoClaimIn(input, required, ClaimMissing);
    forall c | c in required ensures Proven(input, c, input.contract.claims[c]) <==> StateOfClaim(input, c, input.contract.claims[c]) == ClaimSatisfied {
      SignsExactly(input, c, input.contract.claims[c]);
    }
  }

  /** An action is authorized exactly when it is permitted and not prohibited, the capability is there, and every claim it waits for is proven. */
  lemma AuthorizedExactly(input: Input)
    requires Authority.InputValid(input)
    ensures RequiredClaims(input.contract, ActionOf(input)) <= input.contract.claims.Keys
    ensures DecisionOf(input).value.status.Authorized? <==>
              (&& ActionOf(input) in input.contract.permissions && ActionOf(input) !in input.contract.prohibitions
               && input.capability.Available?
               && forall c | c in RequiredClaims(input.contract, ActionOf(input)) :: Proven(input, c, input.contract.claims[c]))
  {
    var action := ActionOf(input);
    var required := RequiredClaims(input.contract, action);
    NoneOtherThanProven(input, required);
  }

  /** A claim found passing has an item behind it: valid, passed, of the required class, bound to the contract field by field, from an eligible producer. */
  lemma PassingItem(input: Input, claim: Id, required: RequiredClaim) returns (b: Id, e: Id)
    requires Found(input, claim, required, Passing)
    ensures b in input.bundles && e in input.bundles[b].evidence
    ensures var bundle, w := input.bundles[b], input.contract;
            && bundle.subject.repository == w.subject.repository && bundle.subject.revision == w.subject.revision
            && bundle.contract.id == w.identity.id && bundle.contract.revision == w.identity.revision
            && bundle.policy.id == w.policy.id && bundle.policy.revision == w.policy.revision
    ensures var item := input.bundles[b].evidence[e];
            && item.claim == claim && item.evidenceClass == required.evidenceClass && item.lifecycle == Valid && item.outcome == Passed
            && (required.independent ==> item.producer.id != input.changeProducer.id)
            && (required.evidenceClass == HumanApproval ==> item.producer.kind == Human)
  {
    b, e :| b in input.bundles && e in input.bundles[b].evidence
      && ItemShows(input, input.bundles[b], input.bundles[b].evidence[e], claim, required, Passing);
    BoundExactly(input.bundles[b], input.contract);
  }

  // ---------------------------------------------------------------- evidence that does not count

  /** Adding a bundle whose binding differs from the contract's leaves the state of every claim. */
  lemma ForeignEvidenceIgnored(input: Input, id: Id, b: Bundle, claim: Id, required: RequiredClaim)
    requires id !in input.bundles && !BoundTo(b, input.contract)
    ensures StateOfClaim(input.(bundles := input.bundles[id := b]), claim, required) == StateOfClaim(input, claim, required)
  {
    var more := input.(bundles := input.bundles[id := b]);
    forall sign ensures Found(more, claim, required, sign) <==> Found(input, claim, required, sign) {
      if Found(input, claim, required, sign) {
        var k, e :| k in input.bundles && e in input.bundles[k].evidence
          && ItemShows(input, input.bundles[k], input.bundles[k].evidence[e], claim, required, sign);
        assert k in more.bundles && ItemShows(more, more.bundles[k], more.bundles[k].evidence[e], claim, required, sign);
      }
      if Found(more, claim, required, sign) {
        var k, e :| k in more.bundles && e in more.bundles[k].evidence
          && ItemShows(more, more.bundles[k], more.bundles[k].evidence[e], claim, required, sign);
        assert k in input.bundles && ItemShows(input, input.bundles[k], input.bundles[k].evidence[e], claim, required, sign);
      }
    }
  }

  // ---------------------------------------------------------------- end to end

  /** The document of a compiled contract: the same content, its conditions listed once each. */
  ghost predicate Documents(w: WorkContract, c: Contract) {
    && w.identity == c.identity && w.subject == c.subject && w.policy == c.policy
    && w.obligations == c.obligations && w.claims == c.claims
    && w.permissions == c.permissions && w.prohibitions == c.prohibitions
    && ConditionsDistinct(w.conditions)
    && (forall x | x in w.conditions :: x.action in c.conditions && Elements(x.claims) == c.conditions[x.action])
    && (forall a | a in c.conditions :: exists x :: x in w.conditions && x.action == a)
  }

  /** A contract the compiler returned never fails the evaluator's own check, unless it can authorize nothing. */
  lemma {:induction false} CompiledReferencesDefined(input: CompileInput, w: WorkContract)
    requires Compiled(input).Some? && Documents(w, Compiled(input).value)
    requires Compiled(input).value.permissions != {} || Compiled(input).value.conditions != map[]
    ensures ReferencesDefined(w)
  {
    ResolvedRefers(input);
  }

  /**
    Under a compiled contract, an authorized action is permitted and not prohibited, the
    capability is available, and every non-blank acceptance criterion is a material obligation
    with at least one discharge claim, each proven by exactly bound, valid, passing evidence,
    independent of the change's producer where the claim asks it, and failed by none.
   */
  lemma AuthorizedMeansAccepted(compile: CompileInput, input: Input, text: Id)
    requires Compiled(compile).Some? && Documents(input.contract, Compiled(compile).value)
    requires Authority.InputValid(input) && DecisionOf(input).value.status.Authorized?
    requires text in compile.acceptance && text in compile.trimmed
    ensures ActionOf(input) in Compiled(compile).value.permissions && ActionOf(input) !in Compiled(compile).value.prohibitions
    ensures input.capability.Available?
    ensures Discharged(input, Acceptance(compile.trimmed[text]), Prose(text))
  {
    AuthorizedExactly(input);
    CriteriaAreObliged(compile, text);
    var id := Acceptance(compile.trimmed[text]);
    forall claim | claim in input.contract.obligations[id].claims
      ensures claim in input.contract.claims && Proven(input, claim, input.contract.claims[claim])
    {
      assert claim in MaterialClaims(input.contract);
    }
  }

  /** The obligation says what the criterion says, is material, and each of its claims is proven; there is at least one. */
  ghost predicate Discharged(input: Input, id: ReqId, statement: Statement) {
    && id in input.contract.obligations
    && input.contract.obligations[id].material && input.contract.obligations[id].statement == statement
    && input.contract.obligations[id].claims != {}
    && forall claim | claim in input.contract.obligations[id].claims ::
         claim in input.contract.claims && Proven(input, claim, input.contract.claims[claim])
  }
}
