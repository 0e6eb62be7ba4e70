/** The message primitives: draft shapes, the routing rule, and what an admitted record must be. */
module Messages {
  import opened Ids

  const MESSAGE_SCHEMA_VERSION: nat := 1
  const MAX_MESSAGES_PER_INVOCATION := 8
  const MAX_SCOPE_MESSAGES := 256
  const MAX_SCOPE_UNITS := 32
  const MAX_DECISION_OPTIONS := 20

  datatype Kind = CollaborationRequest | Finding | DecisionRequest | StateUpdate | UnknownKind(name: Id)

  datatype Category = Defect | Risk | Inconsistency | UnknownCategory(name: Id)

  datatype Outcome = AllowDeny | SelectedOption | DecisionText | UnknownOutcome(name: Id)

  /** The digest of one draft of one exact invocation, as a free constructor. */
  datatype MessageId = MessageId(run: Id, operation: Id, attempt: int, index: nat)

  /** A member left empty is `None`; blank prose counts as empty. */
  datatype Draft = Draft(
    kind: Kind,
    target: Option<Id>,
    inReplyTo: Option<MessageId>,
    supersedes: Option<MessageId>,
    subjectHandoff: Option<Id>,
    purpose: Option<Id>,
    category: Option<Category>,
    expectedOutcome: Option<Outcome>,
    options: seq<Id>,
    body: Option<Id>)

  datatype Report = Report(schemaVersion: nat, messages: seq<Draft>)

  datatype Need = Required | Permitted | Forbidden

  datatype Member = TargetMember | PurposeMember | ReplyMember | SubjectMember | CategoryMember

  function Shape(kind: Kind, member: Member): Need {
    match (kind, member)
    case (CollaborationRequest, TargetMember) => Required
    case (CollaborationRequest, PurposeMember) => Required
    case (CollaborationRequest, ReplyMember) => Permitted
    case (CollaborationRequest, SubjectMember) => Permitted
    case (Finding, SubjectMember) => Required
    case (Finding, CategoryMember) => Required
    case (DecisionRequest, PurposeMember) => Required
    case (DecisionRequest, SubjectMember) => Permitted
    case _ => Forbidden
  }

  predicate Fits(need: Need, present: bool) {
    (need.Required? ==> present) && (need.Forbidden? ==> !present)
  }

  predicate NoRepeats(options: seq<Id>) {
    forall i, j | 0 <= i < j < |options| :: options[i] != options[j]
  }

  predicate DecisionShapeValid(expected: Option<Outcome>, options: seq<Id>) {
    match expected
    case None => options == []
    case Some(SelectedOption) => 0 < |options| <= MAX_DECISION_OPTIONS && NoRepeats(options)
    case Some(UnknownOutcome(_)) => false
    case Some(_) => options == []
  }

  /** `validateDraft`. */
  predicate DraftValid(d: Draft) {
    && !d.kind.UnknownKind?
    && d.body.Some?
    && Fits(Shape(d.kind, TargetMember), d.target.Some?)
    && Fits(Shape(d.kind, PurposeMember), d.purpose.Some?)
    && Fits(Shape(d.kind, ReplyMember), d.inReplyTo.Some?)
    && Fits(Shape(d.kind, SubjectMember), d.subjectHandoff.Some?)
    && Fits(Shape(d.kind, CategoryMember), d.category.Some?)
    && (d.category.Some? ==> !d.category.value.UnknownCategory?)
    && if d.kind.DecisionRequest? then DecisionShapeValid(d.expectedOutcome, d.options)
       else d.expectedOutcome.None? && d.options == []
  }

  predicate ReportValid(r: Report) {
    && r.schemaVersion == MESSAGE_SCHEMA_VERSION
    && 1 <= |r.messages| <= MAX_MESSAGES_PER_INVOCATION
    && forall i | 0 <= i < |r.messages| :: DraftValid(r.messages[i])
  }

  // ---------------------------------------------------------------- admitted records

  datatype HandoffSubject = HandoffSubject(base: Option<Id>, revision: Id, tree: Id)

  datatype Subject = Subject(handoff: Option<Id>, owner: Option<Id>, revision: HandoffSubject)

  datatype Source = Source(
    unit: Id, run: Option<Id>, agent: Option<Id>, operation: Option<Id>, attempt: int, index: nat, system: bool)

  datatype Audience = ToUnit | ToAuthority | ToScope | Nowhere

  datatype Route = Route(audience: Audience, unit: Option<Id>)

  datatype Message = Message(
    schemaVersion: nat,
    id: MessageId,
    scope: Option<Id>,
    kind: Kind,
    source: Source,
    route: Route,
    subject: Option<Subject>,
    inReplyTo: Option<MessageId>,
    supersedes: Option<MessageId>,
    purpose: Option<Id>,
    category: Option<Category>,
    expectedOutcome: Option<Outcome>,
    options: seq<Id>,
    body: Option<Id>,
    document: Option<Id>,
    admittedAt: int)

  /** The zero time, which no record may be admitted at. */
  const ZERO_TIME: int := 0

  function IdentityOf(run: Option<Id>, operation: Option<Id>, attempt: int, index: nat): Option<MessageId> {
    if run.None? || operation.None? || attempt <= 0 then None
    else Some(MessageId(run.value, operation.value, attempt, index))
  }

  /** The route is a function of kind and subject; only for a collaboration request does the target matter. */
  function RouteOf(kind: Kind, target: Option<Id>, subject: Option<Subject>): Route {
    match kind
    case CollaborationRequest => Route(ToUnit, target)
    case Finding => if subject.None? then Route(Nowhere, None) else Route(ToUnit, subject.value.owner)
    case DecisionRequest => Route(ToAuthority, None)
    case StateUpdate => Route(ToScope, None)
    case UnknownKind(_) => Route(Nowhere, None)
  }

  function TargetOf(m: Message): Option<Id> {
    if m.kind.CollaborationRequest? then m.route.unit else None
  }

  function DraftOf(m: Message): Draft {
    Draft(m.kind, TargetOf(m), m.inReplyTo, m.supersedes,
          if m.subject.Some? then m.subject.value.handoff else None,
          m.purpose, m.category, m.expectedOutcome, m.options, m.body)
  }

  predicate MessageValid(m: Message) {
    && m.schemaVersion == MESSAGE_SCHEMA_VERSION
    && m.scope.Some? && m.source.run.Some? && m.source.operation.Some? && m.document.Some?
    && (m.source.system <==> m.source.agent.None?)
    && m.source.attempt > 0 && m.admittedAt != ZERO_TIME
    && m.route == RouteOf(m.kind, TargetOf(m), m.subject)
    && DraftValid(DraftOf(m))
  }

  predicate AppliesTo(m: Message, current: HandoffSubject) {
    m.subject.Some? && m.subject.value.revision == current
  }

  /** Who a valid record can reach, by its kind alone. */
  lemma RoutesAreFixedByKind(m: Message)
    requires MessageValid(m)
    ensures m.route.audience.ToAuthority? <==> m.kind.DecisionRequest?
    ensures m.route.audience.ToScope? <==> m.kind.StateUpdate?
    ensures m.route.audience.ToUnit? <==> m.kind.CollaborationRequest? || m.kind.Finding?
    ensures m.kind.Finding? ==> m.subject.Some? && m.route.unit == m.subject.value.owner
    ensures m.inReplyTo.Some? ==> m.kind.CollaborationRequest? && m.route.unit.Some?
  {
    assert DraftValid(DraftOf(m));
  }
}
