/** Whether one protected action is authorized by a contract and the evidence at hand. */
module Authority {
  import opened Ids
  import opened Vocabulary
  import opened Policies

  datatype ProducerKind = ExecutionProvider | AssuranceProvider | DeterministicTool | Human | OtherProducer(name: Id)

  datatype Producer = Producer(id: Option<Id>, kind: ProducerKind)

  datatype Lifecycle = Valid | Stale | OtherLifecycle(name: Id)

  datatype Outcome = Passed | Failed | OtherOutcome(name: Id)

  datatype Item = Item(claim: Id, evidenceClass: EvidenceClass, producer: Producer, lifecycle: Lifecycle, outcome: Outcome)

  datatype Bundle = Bundle(id: Option<Id>, revision: Id, subject: Subject, contract: ObjectRevision, policy: ObjectRevision, evidence: map<Id, Item>)

  /** What evaluation reads of a contract; the conditions are a list, as the document has them. */
  datatype WorkContract = WorkContract(
    identity: ObjectRevision,
    subject: Subject,
    policy: ObjectRevision,
    obligations: map<ReqId, Requirement>,
    claims: map<Id, RequiredClaim>,
    permissions: set<Action>,
    prohibitions: set<Action>,
    conditions: seq<AuthorityCondition>)

  datatype CapabilityStatus = Available | Unavailable | NotKnown | OtherStatus(name: Id)

  datatype Input = Input(
    decisionId: Option<Id>,
    decisionRevision: Option<Id>,
    contract: WorkContract,
    kind: Option<Id>,
    target: Option<Id>,
    capability: CapabilityStatus,
    changeProducer: Producer,
    bundles: map<Id, Bundle>)

  /** What a decision can list as satisfied, missing, stale or blocking. */
  datatype Name = ClaimName(claim: Id) | PermissionName(action: Action) | CapabilityName(action: Action)

  datatype Status = Blocked | StaleEvidence | Authorized | Incomplete | AwaitingAuthority

  /** The lists of a decision are sorted without repeats, and modelled as the sets they list. */
  datatype Decision = Decision(
    status: Status, granted: bool, satisfied: set<Name>, missing: set<Name>, stale: set<Name>, blocking: set<Name>, basis: map<Id, Id>)

  // ---------------------------------------------------------------- what the input must be

  predicate ConditionsDistinct(conditions: seq<AuthorityCondition>) {
    forall i, j | 0 <= i < j < |conditions| :: conditions[i].action != conditions[j].action
  }

  predicate ReferencesDefined(w: WorkContract) {
    && (forall id | id in w.obligations ::
          w.obligations[id].material ==> w.obligations[id].claims != {} && w.obligations[id].claims <= w.claims.Keys)
    && ConditionsDistinct(w.conditions)
    && (forall c | c in w.conditions :: Elements(c.claims) <= w.claims.Keys)
  }

  predicate InputValid(input: Input) {
    && input.decisionId.Some? && input.decisionRevision.Some?
    && input.kind.Some? && input.target.Some?
    && !input.capability.OtherStatus?
    && ReferencesDefined(input.contract)
    && input.changeProducer.id.Some? && !input.changeProducer.kind.OtherProducer?
    && (forall id | id in input.bundles :: input.bundles[id].id == Some(id))
  }

  /** `validateContractReferences`. */
  method ValidateContractReferences(w: WorkContract) returns (ok: bool)
    ensures ok <==> ReferencesDefined(w)
  {
    if exists id | id in w.obligations ::
         w.obligations[id].material && (w.obligations[id].claims == {} || !(w.obligations[id].claims <= w.claims.Keys)) {
      return false;
    }
    var seen: set<Action> := {};
    for i := 0 to |w.conditions|
      invariant forall a :: a in seen <==> exists k :: 0 <= k < i && w.conditions[k].action == a
      invariant ConditionsDistinct(w.conditions[..i])
      invariant forall k | 0 <= k < i :: Elements(w.conditions[k].claims) <= w.claims.Keys
    {
      var c := w.conditions[i];
      if c.action in seen {
        var k :| 0 <= k < i && w.conditions[k].action == c.action;
        assert !ConditionsDistinct(w.conditions);
        return false;
      }
      if !(Elements(c.claims) <= w.claims.Keys) { return false; }
      seen := seen + {c.action};
    }
    assert w.conditions[..|w.conditions|] == w.conditions;
    return true;
  }

  // ---------------------------------------------------------------- claims

  predicate Granted(w: WorkContract, action: Action) {
    action !in w.prohibitions && action in w.permissions
  }

  function ConditionClaims(w: WorkContract, action: Action): set<Id> {
    set c, claim | c in w.conditions && c.action == action && claim in c.claims :: claim
  }

  function MaterialClaims(w: WorkContract): set<Id> {
    set id, claim | id in w.obligations && w.obligations[id].material && claim in w.obligations[id].claims :: claim
  }

  /** What an action waits for: its condition's claims and the claims that discharge material obligations. */
  function RequiredClaims(w: WorkContract, action: Action): set<Id> {
    ConditionClaims(w, action) + MaterialClaims(w)
  }

  method RequiredClaimsFor(w: WorkContract, action: Action) returns (required: set<Id>)
    ensures required == RequiredClaims(w, action)
  {
    required := {};
    for i := 0 to |w.conditions|
      invariant forall x :: x in required <==> exists k :: 0 <= k < i && w.conditions[k].action == action && x in w.conditions[k].claims
    {
      if w.conditions[i].action == action { required := required + Elements(w.conditions[i].claims); }
    }
    assert required == ConditionClaims(w, action);
    var remaining := w.obligations.Keys;
    while remaining != {}
      invariant remaining <= w.obligations.Keys
      invariant forall x :: x in required <==>
                  (x in ConditionClaims(w, action)
                   || exists id :: id in w.obligations && id !in remaining && w.obligations[id].material && x in w.obligations[id].claims)
      decreases |remaining|
    {
      var id :| id in remaining;
      if w.obligations[id].material { required := required + w.obligations[id].claims; }
      remaining := remaining - {id};
    }
  }

  /** The bundle names exactly the subject, contract and policy of the contract being evaluated. */
  predicate BoundTo(b: Bundle, w: WorkContract) {
    b.subject == w.subject && b.contract == w.identity && b.policy == w.policy
  }

  /** An item speaks to a claim; a human approval must come from a human. */
  predicate SpeaksTo(item: Item, claim: Id, required: RequiredClaim) {
    && item.claim == claim && item.evidenceClass == required.evidenceClass
    && (required.evidenceClass.HumanApproval? ==> item.producer.kind.Human?)
  }

  datatype Sign = Failing | Passing | Lapsed

  predicate Shows(item: Item, required: RequiredClaim, changeProducer: Producer, sign: Sign) {
    match sign
    case Failing => item.lifecycle.Valid? && item.outcome.Failed?
    case Passing => item.lifecycle.Valid? && item.outcome.Passed? && (required.independent ==> item.producer.id != changeProducer.id)
    case Lapsed => item.lifecycle.Stale?
  }

  predicate ItemShows(input: Input, b: Bundle, item: Item, claim: Id, required: RequiredClaim, sign: Sign) {
    BoundTo(b, input.contract) && SpeaksTo(item, claim, required) && Shows(item, required, input.changeProducer, sign)
  }

  /** Some exactly bound item shows the sign. */
  ghost predicate Found(input: Input, claim: Id, required: RequiredClaim, sign: Sign) {
    exists b, e :: b in input.bundles && e in input.bundles[b].evidence
      && ItemShows(input, input.bundles[b], input.bundles[b].evidence[e], claim, required, sign)
  }

  ghost predicate FoundIn(input: Input, b: Bundle, done: set<Id>, claim: Id, required: RequiredClaim, sign: Sign) {
    exists e :: e in b.evidence && e in done && ItemShows(input, b, b.evidence[e], claim, required, sign)
  }

  datatype ClaimState = ClaimMissing | ClaimSatisfied | ClaimBlocked | ClaimStale

  /** A failure outweighs every pass, and a pass outweighs staleness. */
  ghost function StateOfClaim(input: Input, claim: Id, required: RequiredClaim): ClaimState {
    if Found(input, claim, required, Failing) then ClaimBlocked
    else if Found(input, claim, required, Passing) then ClaimSatisfied
    else if Found(input, claim, required, Lapsed) then ClaimStale
    else ClaimMissing
  }

  datatype Signs = Signs(failing: bool, passing: bool, lapsed: bool)

  ghost predicate SignsOf(s: Signs, failing: bool, passing: bool, lapsed: bool) {
    (s.failing <==> failing) && (s.passing <==> passing) && (s.lapsed <==> lapsed)
  }

  /** The items of one bundle, in whatever order they come. */
  method ScanBundle(input: Input, b: Bundle, claim: Id, required: RequiredClaim) returns (s: Signs)
    ensures SignsOf(s, FoundIn(input, b, b.evidence.Keys, claim, required, Failing),
                       FoundIn(input, b, b.evidence.Keys, claim, required, Passing),
                       FoundIn(input, b, b.evidence.Keys, claim, required, Lapsed))
  {
    s := Signs(false, false, false);
    if !BoundTo(b, input.contract) { return; }
    var remaining := b.evidence.Keys;
    while remaining != {}
      invariant remaining <= b.evidence.Keys
      invariant SignsOf(s, FoundIn(input, b, b.evidence.Keys - remaining, claim, required, Failing),
                           FoundIn(input, b, b.evidence.Keys - remaining, claim, required, Passing),
                           FoundIn(input, b, b.evidence.Keys - remaining, claim, required, Lapsed))
      decreases |remaining|
    {
      var e :| e in remaining;
      var item := b.evidence[e];
      remaining := remaining - {e};
      if item.claim != claim || item.evidenceClass != required.evidenceClass { continue; }
      if required.evidenceClass.HumanApproval? && !item.producer.kind.Human? { continue; }
      if item.lifecycle.Stale? {
        s := s.(lapsed := true);
        continue;
      }
      if !item.lifecycle.Valid? { continue; }
      if item.outcome.Failed? { s := s.(failing := true); }
      if item.outcome.Passed? && (!required.independent || item.producer.id != input.changeProducer.id) { s := s.(passing := true); }
    }
    assert b.evidence.Keys - {} == b.evidence.Keys;
  }

  ghost predicate FoundAmong(input: Input, done: set<Id>, claim: Id, required: RequiredClaim, sign: Sign) {
    exists b :: b in input.bundles && b in done && FoundIn(input, input.bundles[b], input.bundles[b].evidence.Keys, claim, required, sign)
  }

  /** `claimState`. */
  method ClassifyClaim(input: Input, claim: Id, required: RequiredClaim) returns (state: ClaimState)
    ensures state == StateOfClaim(input, claim, required)
  {
    var s := Signs(false, false, false);
    var remaining := input.bundles.Keys;
    while remaining != {}
      invariant remaining <= input.bundles.Keys
      invariant SignsOf(s, FoundAmong(input, input.bundles.Keys - remaining, claim, required, Failing),
                           FoundAmong(input, input.bundles.Keys - remaining, claim, required, Passing),
                           FoundAmong(input, input.bundles.Keys - remaining, claim, required, Lapsed))
      decreases |remaining|
    {
      var b :| b in remaining;
      var found := ScanBundle(input, input.bundles[b], claim, required);
      s := Signs(s.failing || found.failing, s.passing || found.passing, s.lapsed || found.lapsed);
      remaining := remaining - {b};
    }
    assert input.bundles.Keys - {} == input.bundles.Keys;
    if s.failing { return ClaimBlocked; }
    if s.passing { return ClaimSatisfied; }
    if s.lapsed { return ClaimStale; }
    return ClaimMissing;
  }

  // ---------------------------------------------------------------- the decision

  function ActionOf(input: Input): Action
    requires input.kind.Some? && input.target.Some?
  {
    Action(input.kind.value, input.target.value)
  }

  /** The required claims in one state. */
  ghost function ClaimsIn(input: Input, required: set<Id>, state: ClaimState): set<Name>
    requires required <= input.contract.claims.Keys
  {
    set c | c in required && StateOfClaim(input, c, input.contract.claims[c]) == state :: ClaimName(c)
  }

  datatype Classified = Classified(satisfied: set<Name>, missing: set<Name>, stale: set<Name>, blocking: set<Name>)

  ghost predicate Classifies(k: Classified, input: Input, required: set<Id>)
    requires required <= input.contract.claims.Keys
  {
    && k.satisfied == ClaimsIn(input, required, ClaimSatisfied)
    && k.missing == ClaimsIn(input, required, ClaimMissing)
    && k.stale == ClaimsIn(input, required, ClaimStale)
    && k.blocking == ClaimsIn(input, required, ClaimBlocked)
  }

  function Noting(k: Classified, c: Id, state: ClaimState): Classified {
    match state
    case ClaimSatisfied => k.(satisfied := k.satisfied + {ClaimName(c)})
    case ClaimBlocked => k.(blocking := k.blocking + {ClaimName(c)})
    case ClaimStale => k.(stale := k.stale + {ClaimName(c)})
    case ClaimMissing => k.(missing := k.missing + {ClaimName(c)})
  }

  lemma ClaimsOneMore(input: Input, done: set<Id>, c: Id, state: ClaimState)
    requires done <= input.contract.claims.Keys && c in input.contract.claims
    ensures ClaimsIn(input, done + {c}, state)
         == ClaimsIn(input, done, state) + if StateOfClaim(input, c, input.contract.claims[c]) == state then {ClaimName(c)} else {}
  {
    assert forall x :: x in done + {c} <==> x in done || x == c;
  }

  lemma NotingOne(k: Classified, input: Input, done: set<Id>, c: Id)
    requires done <= input.contract.claims.Keys && c in input.contract.claims && Classifies(k, input, done)
    ensures Classifies(Noting(k, c, StateOfClaim(input, c, input.contract.claims[c])), input, done + {c})
  {
    ClaimsOneMore(input, done, c, ClaimSatisfied);
    ClaimsOneMore(input, done, c, ClaimMissing);
    ClaimsOneMore(input, done, c, ClaimStale);
    ClaimsOneMore(input, done, c, ClaimBlocked);
  }

  /** `classifyClaims`. */
  method ClassifyClaims(input: Input, required: set<Id>) returns (k: Classified)
    requires required <= input.contract.claims.Keys
    ensures Classifies(k, input, required)
  {
    k := Classified({}, {}, {}, {});
    var remaining := required;
    ghost var done: set<Id> := {};
    while remaining != {}
      invariant done <= required && done + remaining == required
      invariant Classifies(k, input, done)
      decreases |remaining|
    {
      var c :| c in remaining;
      var state := ClassifyClaim(input, c, input.contract.claims[c]);
      NotingOne(k, input, done, c);
      k := Noting(k, c, state);
      done := done + {c};
      remaining := remaining - {c};
    }
    assert done == required;
  }

  /** `statusFor`: waiting for authority only when nothing but human approvals is missing. */
  function StatusFor(missing: set<Name>, stale: set<Name>, blocking: set<Name>, claims: map<Id, RequiredClaim>): Status {
    if blocking != {} then Blocked
    else if stale != {} then StaleEvidence
    else if missing == {} then Authorized
    else if exists n | n in missing :: !n.ClaimName? || n.claim !in claims || !claims[n.claim].evidenceClass.HumanApproval? then Incomplete
    else AwaitingAuthority
  }

  function With(names: set<Name>, b: bool, name: Name): set<Name> {
    if b then names + {name} else names
  }

  ghost function DecisionOf(input: Input): Option<Decision> {
    if !InputValid(input) then None
    else
      var action := ActionOf(input);
      var required := RequiredClaims(input.contract, action);
      var missing := With(ClaimsIn(input, required, ClaimMissing), input.capability.NotKnown?, CapabilityName(action));
      var stale := ClaimsIn(input, required, ClaimStale);
      var blocking := With(With(ClaimsIn(input, required, ClaimBlocked), !Granted(input.contract, action), PermissionName(action)),
                           input.capability.Unavailable?, CapabilityName(action));
      Some(Decision(StatusFor(missing, stale, blocking, input.contract.claims), Granted(input.contract, action),
                    ClaimsIn(input, required, ClaimSatisfied), missing, stale, blocking,
                    map id | id in input.bundles :: input.bundles[id].revision))
  }

  /** `Evaluate`. */
  method Evaluate(input: Input) returns (d: Option<Decision>)
    ensures d == DecisionOf(input)
    ensures d.Some? <==> InputValid(input)
  {
    if input.decisionId.None? || input.decisionRevision.None? { return None; }
    if input.kind.None? || input.target.None? { return None; }
    if input.capability.OtherStatus? { return None; }
    var defined := ValidateContractReferences(input.contract);
    if !defined { return None; }
    if input.changeProducer.id.None? || input.changeProducer.kind.OtherProducer? { return None; }
    if exists id | id in input.bundles :: input.bundles[id].id != Some(id) { return None; }
    var action := Action(input.kind.value, input.target.value);
    var granted := Granted(input.contract, action);
    var required := RequiredClaimsFor(input.contract, action);
    var k := ClassifyClaims(input, required);
    var missing, blocking := k.missing, k.blocking;
    if !granted { blocking := blocking + {PermissionName(action)}; }
    if input.capability.Unavailable? {
      blocking := blocking + {CapabilityName(action)};
    } else if input.capability.NotKnown? {
      missing := missing + {CapabilityName(action)};
    }
    return Some(Decision(StatusFor(missing, k.stale, blocking, input.contract.claims), granted, k.satisfied, missing, k.stale, blocking,
                         map id | id in input.bundles :: input.bundles[id].revision));
  }
}
