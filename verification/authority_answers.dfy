/** What a decision lists and which status it has, in terms of the contract's fields and the items of the evidence. */
module AuthorityAnswers {
  import opened Ids
  import opened Vocabulary
  import opened Policies
  import opened Authority
  import opened AuthorityLaws

  // ---------------------------------------------------------------- what the action waits for

  ghost predicate Awaits(w: WorkContract, action: Action, claim: Id) {
    || (exists k :: k in w.conditions && k.action == action && claim in k.claims)
    || (exists o :: o in w.obligations && w.obligations[o].material && claim in w.obligations[o].claims)
  }

  lemma AwaitsExactly(w: WorkContract, action: Action, claim: Id)
    ensures claim in RequiredClaims(w, action) <==> Awaits(w, action, claim)
  {
  }

  lemma RequiredDefined(input: Input)
    requires Authority.InputValid(input)
    ensures RequiredClaims(input.contract, ActionOf(input)) <= input.contract.claims.Keys
  {
  }

  ghost predicate Waiting(input: Input, claim: Id) {
    && input.kind.Some? && input.target.Some?
    && Awaits(input.contract, Action(input.kind.value, input.target.value), claim) && claim in input.contract.claims
  }

  ghost predicate Contradicted(input: Input, claim: Id) {
    Waiting(input, claim) && Fails(input, claim, input.contract.claims[claim])
  }

  ghost predicate Proved(input: Input, claim: Id) {
    Waiting(input, claim) && !Fails(input, claim, input.contract.claims[claim]) && Passes(input, claim, input.contract.claims[claim])
  }

  ghost predicate Outdated(input: Input, claim: Id) {
    && Waiting(input, claim) && !Fails(input, claim, input.contract.claims[claim]) && !Passes(input, claim, input.contract.claims[claim])
    && Lapses(input, claim, input.contract.claims[claim])
  }

  ghost predicate Unproved(input: Input, claim: Id) {
    && Waiting(input, claim) && !Fails(input, claim, input.contract.claims[claim]) && !Passes(input, claim, input.contract.claims[claim])
    && !Lapses(input, claim, input.contract.claims[claim])
  }

  // ---------------------------------------------------------------- the decision

  ghost predicate Allowed(input: Input) {
    && input.kind.Some? && input.target.Some?
    && Action(input.kind.value, input.target.value) in input.contract.permissions
    && Action(input.kind.value, input.target.value) !in input.contract.prohibitions
  }

  /** Each claim the action waits for is listed once, by what its evidence says. */
  lemma ClaimsListed(input: Input, claim: Id)
    requires Authority.InputValid(input)
    ensures var d := DecisionOf(input).value;
            && (ClaimName(claim) in d.blocking <==> Contradicted(input, claim))
            && (ClaimName(claim) in d.satisfied <==> Proved(input, claim))
            && (ClaimName(claim) in d.stale <==> Outdated(input, claim))
            && (ClaimName(claim) in d.missing <==> Unproved(input, claim))
  {
    RequiredDefined(input);
    AwaitsExactly(input.contract, ActionOf(input), claim);
    if claim in input.contract.claims { SignsExactly(input, claim, input.contract.claims[claim]); }
  }

  /** What else a decision lists: a permission that is not there, a capability that is not there or not known. */
  lemma RestListed(input: Input, name: Name)
    requires Authority.InputValid(input) && !name.ClaimName?
    ensures var d, action := DecisionOf(input).value, Action(input.kind.value, input.target.value);
            && (name in d.blocking <==>
                  (name == PermissionName(action) && !Allowed(input)) || (name == CapabilityName(action) && input.capability == Unavailable))
            && (name in d.missing <==> name == CapabilityName(action) && input.capability == NotKnown)
            && name !in d.satisfied && name !in d.stale
            && (d.granted <==> Allowed(input))
  {
  }

  /** The decision keeps the revision of every bundle it was given. */
  lemma BasisListed(input: Input, id: Id)
    requires Authority.InputValid(input)
    ensures id in DecisionOf(input).value.basis <==> id in input.bundles
    ensures id in input.bundles ==> DecisionOf(input).value.basis[id] == input.bundles[id].revision
  {
  }

  ghost predicate Stopped(input: Input) {
    !Allowed(input) || input.capability == Unavailable || exists claim :: Contradicted(input, claim)
  }

  /** A claim nothing bears on, that only a human can supply. */
  ghost predicate HumanUnproved(input: Input, claim: Id) {
    Unproved(input, claim) && input.contract.claims[claim].evidenceClass == HumanApproval
  }

  /** Which of the five statuses a decision has: a contradiction outweighs staleness, and staleness what is missing. */
  ghost predicate HasStatus(input: Input, status: Status) {
    match status
    case Blocked => Stopped(input)
    case StaleEvidence => !Stopped(input) && exists claim :: Outdated(input, claim)
    case Authorized =>
      && !Stopped(input) && input.capability == Available
      && forall claim | Waiting(input, claim) :: Proved(input, claim)
    case AwaitingAuthority =>
      && !Stopped(input) && input.capability == Available && (forall claim :: !Outdated(input, claim))
      && (exists claim :: Unproved(input, claim)) && forall claim | Unproved(input, claim) :: HumanUnproved(input, claim)
    case Incomplete =>
      && !Stopped(input) && (forall claim :: !Outdated(input, claim))
      && (input.capability == NotKnown || exists claim :: Unproved(input, claim) && !HumanUnproved(input, claim))
  }

  lemma StoppedExactly(input: Input)
    requires Authority.InputValid(input)
    ensures DecisionOf(input).value.blocking != {} <==> Stopped(input)
  {
    var d, action := DecisionOf(input).value, Action(input.kind.value, input.target.value);
    RestListed(input, PermissionName(action));
    RestListed(input, CapabilityName(action));
    if n :| n in d.blocking {
      if n.ClaimName? { ClaimsListed(input, n.claim); } else { RestListed(input, n); }
    }
    if claim :| Contradicted(input, claim) { ClaimsListed(input, claim); }
  }

  lemma StaleExactly(input: Input)
    requires Authority.InputValid(input)
    ensures DecisionOf(input).value.stale != {} <==> exists claim :: Outdated(input, claim)
  {
    if n :| n in DecisionOf(input).value.stale {
      if n.ClaimName? { ClaimsListed(input, n.claim); } else { RestListed(input, n); }
    }
    if claim :| Outdated(input, claim) { ClaimsListed(input, claim); }
  }

  /** What is missing is a claim nothing bears on, or the knowledge of the capability. */
  lemma MissingExactly(input: Input, n: Name)
    requires Authority.InputValid(input)
    ensures n in DecisionOf(input).value.missing <==>
              match n
              case ClaimName(claim) => Unproved(input, claim)
              case CapabilityName(action) => action == Action(input.kind.value, input.target.value) && input.capability == NotKnown
              case PermissionName(_) => false
  {
    if n.ClaimName? { ClaimsListed(input, n.claim); } else { RestListed(input, n); }
  }

  lemma OneState(input: Input, claim: Id)
    requires Waiting(input, claim)
    ensures Contradicted(input, claim) || Proved(input, claim) || Outdated(input, claim) || Unproved(input, claim)
    ensures Proved(input, claim) ==> !Contradicted(input, claim) && !Outdated(input, claim) && !Unproved(input, claim)
  {
  }

  lemma NothingMissing(input: Input)
    requires Authority.InputValid(input)
    ensures DecisionOf(input).value.missing == {} <==> input.capability != NotKnown && forall claim :: !Unproved(input, claim)
  {
    if n :| n in DecisionOf(input).value.missing { MissingExactly(input, n); }
    if input.capability == NotKnown { MissingExactly(input, CapabilityName(Action(input.kind.value, input.target.value))); }
    if claim :| Unproved(input, claim) { MissingExactly(input, ClaimName(claim)); }
  }

  /** Something is missing that no human approval would supply. */
  ghost predicate BeyondApproval(n: Name, claims: map<Id, RequiredClaim>) {
    !n.ClaimName? || n.claim !in claims || !claims[n.claim].evidenceClass.HumanApproval?
  }

  lemma OnlyApprovalsMissing(input: Input)
    requires Authority.InputValid(input)
    ensures (exists n | n in DecisionOf(input).value.missing :: BeyondApproval(n, input.contract.claims)) <==>
              input.capability == NotKnown || exists claim :: Unproved(input, claim) && !HumanUnproved(input, claim)
  {
    if n :| n in DecisionOf(input).value.missing && BeyondApproval(n, input.contract.claims) { MissingExactly(input, n); }
    if input.capability == NotKnown { MissingExactly(input, CapabilityName(Action(input.kind.value, input.target.value))); }
    if claim :| Unproved(input, claim) && !HumanUnproved(input, claim) {
      MissingExactly(input, ClaimName(claim));
      assert BeyondApproval(ClaimName(claim), input.contract.claims);
    }
  }

  lemma StatusFrom(missing: set<Name>, stale: set<Name>, blocking: set<Name>, claims: map<Id, RequiredClaim>)
    ensures StatusFor(missing, stale, blocking, claims) ==
              if blocking != {} then Blocked else if stale != {} then StaleEvidence else if missing == {} then Authorized
              else if exists n | n in missing :: BeyondApproval(n, claims) then Incomplete else AwaitingAuthority
  {
    assert forall n :: BeyondApproval(n, claims) <==> !n.ClaimName? || n.claim !in claims || !claims[n.claim].evidenceClass.HumanApproval?;
  }

  /** The status of every decision, from the contract and the evidence alone. */
  lemma StatusExactly(input: Input, status: Status)
    requires Authority.InputValid(input)
    ensures DecisionOf(input).value.status == status <==> HasStatus(input, status)
  {
    var d := DecisionOf(input).value;
    StatusFrom(d.missing, d.stale, d.blocking, input.contract.claims);
    StoppedExactly(input);
    StaleExactly(input);
    NothingMissing(input);
    OnlyApprovalsMissing(input);
    forall claim | Waiting(input, claim) ensures Contradicted(input, claim) || Proved(input, claim) || Outdated(input, claim) || Unproved(input, claim) {
      OneState(input, claim);
    }
    forall claim | Proved(input, claim) ensures !Contradicted(input, claim) && !Outdated(input, claim) && !Unproved(input, claim) {
      OneState(input, claim);
    }
  }

  // ---------------------------------------------------------------- what is refused

  /** The input evaluation takes: complete, each bundle under its own id, every claim it will look up defined. */
  ghost predicate Evaluable(input: Input) {
    && input.decisionId != None && input.decisionRevision != None && input.kind != None && input.target != None
    && (input.capability == Available || input.capability == Unavailable || input.capability == NotKnown)
    && input.changeProducer.id != None
    && (|| input.changeProducer.kind == ExecutionProvider || input.changeProducer.kind == AssuranceProvider
        || input.changeProducer.kind == DeterministicTool || input.changeProducer.kind == Human)
    && (forall b | b in input.bundles :: input.bundles[b].id == Some(b))
    && (forall o | o in input.contract.obligations && input.contract.obligations[o].material ::
          && (exists claim :: claim in input.contract.obligations[o].claims)
          && forall claim | claim in input.contract.obligations[o].claims :: claim in input.contract.claims)
    && (forall k, claim | k in input.contract.conditions && claim in k.claims :: claim in input.contract.claims)
    && forall i, j | 0 <= i < |input.contract.conditions| && 0 <= j < |input.contract.conditions|
         && input.contract.conditions[i].action == input.contract.conditions[j].action :: i == j
  }

  lemma EvaluatedExactly(input: Input)
    ensures DecisionOf(input).Some? <==> Evaluable(input)
  {
    assert !input.changeProducer.kind.OtherProducer? <==>
             || input.changeProducer.kind == ExecutionProvider || input.changeProducer.kind == AssuranceProvider
             || input.changeProducer.kind == DeterministicTool || input.changeProducer.kind == Human;
    forall c: seq<Id> ensures Elements(c) <= input.contract.claims.Keys <==> forall claim | claim in c :: claim in input.contract.claims {
      assert forall claim :: claim in c <==> claim in Elements(c);
    }
  }
}
