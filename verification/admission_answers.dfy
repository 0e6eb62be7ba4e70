/** Which reports are admitted and what the admitted records say, in terms of the drafts, the scope and its history. */
module AdmissionAnswers {
  import opened Ids
  import opened Messages
  import opened Admissions
  import opened Inboxes

  // ---------------------------------------------------------------- the drafts

  /** What each kind of draft must state, and what it must leave out. */
  ghost predicate WellShaped(d: Draft) {
    && d.body != None
    && match d.kind
       case CollaborationRequest =>
         d.target != None && d.purpose != None && d.category == None && d.expectedOutcome == None && |d.options| == 0
       case Finding =>
         && d.target == None && d.purpose == None && d.inReplyTo == None && d.subjectHandoff != None
         && (d.category == Some(Defect) || d.category == Some(Risk) || d.category == Some(Inconsistency))
         && d.expectedOutcome == None && |d.options| == 0
       case DecisionRequest =>
         d.target == None && d.purpose != None && d.inReplyTo == None && d.category == None && OffersFit(d.expectedOutcome, d.options)
       case StateUpdate =>
         && d.target == None && d.purpose == None && d.inReplyTo == None && d.subjectHandoff == None && d.category == None
         && d.expectedOutcome == None && |d.options| == 0
       case UnknownKind(_) => false
  }

  /** Options are offered exactly where one is to be selected: some, at most twenty, no two alike. */
  ghost predicate OffersFit(expected: Option<Outcome>, options: seq<Id>) {
    if expected == Some(SelectedOption) then
      1 <= |options| <= 20 && forall i, j | 0 <= i < |options| && 0 <= j < |options| && options[i] == options[j] :: i == j
    else |options| == 0 && (expected == None || expected == Some(AllowDeny) || expected == Some(DecisionText))
  }

  lemma ShapedExactly(d: Draft)
    ensures DraftValid(d) <==> WellShaped(d)
  {
    if d.category.Some? {
      assert d.category.value.UnknownCategory? || d.category.value == Defect || d.category.value == Risk || d.category.value == Inconsistency;
    }
  }

  /** The record the history holds under an identity: the last one. */
  ghost predicate Latest(history: seq<Message>, x: MessageId, m: Message) {
    exists k :: 0 <= k < |history| && history[k] == m && m.id == x && forall j | k < j < |history| :: history[j].id != x
  }

  lemma {:induction false} PriorExactly(history: seq<Message>, x: MessageId)
    ensures x in PriorOf(history) <==> exists m :: Latest(history, x, m)
    ensures x in PriorOf(history) ==> Latest(history, x, PriorOf(history)[x])
    ensures forall m | Latest(history, x, m) :: x in PriorOf(history) && PriorOf(history)[x] == m
  {
    if history != [] {
      var before, last := history[..|history| - 1], history[|history| - 1];
      PriorExactly(before, x);
      if last.id == x {
        assert Latest(history, x, last);
      } else {
        forall m ensures Latest(history, x, m) <==> Latest(before, x, m) { LatestBefore(history, x, m); }
      }
    }
  }

  lemma {:induction false} LatestBefore(history: seq<Message>, x: MessageId, m: Message)
    requires history != [] && history[|history| - 1].id != x
    ensures Latest(history, x, m) <==> Latest(history[..|history| - 1], x, m)
  {
    var before := history[..|history| - 1];
    if Latest(history, x, m) {
      var k :| 0 <= k < |history| && history[k] == m && m.id == x && forall j | k < j < |history| :: history[j].id != x;
      assert before[k] == m;
    }
    if Latest(before, x, m) {
      var k :| 0 <= k < |before| && before[k] == m && m.id == x && forall j | k < j < |before| :: before[j].id != x;
      forall j | k < j < |history| ensures history[j].id != x { if j < |before| { assert before[j] == history[j]; } }
    }
  }

  /** Nothing in the history, and no earlier draft of the report, corrects the record. */
  ghost predicate Uncorrected(history: seq<Message>, drafts: seq<Draft>, i: nat, x: MessageId)
    requires i <= |drafts|
  {
    && (forall m | m in history :: m.supersedes != Some(x))
    && forall j | 0 <= j < i :: drafts[j].supersedes != Some(x)
  }

  /** A reply goes to the unit that asked, answers a request put to the writer, and comes before any correction of it. */
  ghost predicate AnswersFit(drafts: seq<Draft>, i: nat, scope: Scope, source: Source)
    requires i < |drafts|
  {
    match drafts[i].inReplyTo
    case None => true
    case Some(x) =>
      && Uncorrected(scope.admitted, drafts, i, x)
      && exists request ::
           && Latest(scope.admitted, x, request) && request.kind == CollaborationRequest
           && request.route.unit == Some(source.unit) && drafts[i].target == Some(request.source.unit)
  }

  /** A correction names a record of the writer's own unit and of the same kind that nothing has corrected yet. */
  ghost predicate CorrectionFits(drafts: seq<Draft>, i: nat, scope: Scope, source: Source)
    requires i < |drafts|
  {
    match drafts[i].supersedes
    case None => true
    case Some(x) =>
      && Uncorrected(scope.admitted, drafts, i, x)
      && exists earlier :: Latest(scope.admitted, x, earlier) && earlier.kind == drafts[i].kind && earlier.source.unit == source.unit
  }

  /** What the writer may refer to: handoffs of the scope, other units of it. */
  ghost predicate RefersInside(d: Draft, scope: Scope, source: Source) {
    && (d.subjectHandoff.Some? ==> d.subjectHandoff.value in scope.subjects)
    && (d.kind == Finding && d.subjectHandoff.Some? ==> scope.subjects[d.subjectHandoff.value].handoff != None)
    && (d.target.Some? ==> d.target.value in scope.units && d.target.value != source.unit)
  }

  /** The runtime's own record of the invocation is complete. */
  ghost predicate Attested(digest: Option<Id>, scope: Scope, source: Source, now: int) {
    && source.run != None && source.operation != None && source.attempt >= 1
    && scope.id != None && digest != None && now != 0
    && (source.system ==> source.agent == None) && (source.agent == None ==> source.system)
  }

  ghost predicate DraftFits(drafts: seq<Draft>, i: nat, scope: Scope, source: Source)
    requires i < |drafts|
  {
    WellShaped(drafts[i]) && RefersInside(drafts[i], scope, source) && AnswersFit(drafts, i, scope, source) && CorrectionFits(drafts, i, scope, source)
  }

  /** The reports that are admitted, whole. */
  ghost predicate Admissible(report: Report, digest: Option<Id>, scope: Scope, source: Source, now: int) {
    && report.schemaVersion == 1 && 1 <= |report.messages| <= 8
    && |scope.units| <= 32 && source.unit in scope.units && |scope.admitted| + |report.messages| <= 256
    && Attested(digest, scope, source, now)
    && forall i | 0 <= i < |report.messages| :: DraftFits(report.messages, i, scope, source)
  }

  // ---------------------------------------------------------------- the records

  /** Who a record is put to: the unit asked, the owner of the work found fault with, the authority, or everyone. */
  ghost predicate RoutedTo(d: Draft, subject: Option<Subject>, route: Route) {
    match d.kind
    case CollaborationRequest => route.audience == ToUnit && route.unit == d.target
    case Finding => subject.Some? && route.audience == ToUnit && route.unit == subject.value.owner
    case DecisionRequest => route.audience == ToAuthority && route.unit == None
    case StateUpdate => route.audience == ToScope && route.unit == None
    case UnknownKind(_) => false
  }

  /** A record says what the draft says; identity, place, subject, route and time are the runtime's. */
  ghost predicate RecordOf(d: Draft, i: nat, digest: Option<Id>, scope: Scope, source: Source, now: int, m: Message) {
    && m.schemaVersion == 1 && source.run.Some? && source.operation.Some?
    && m.id.run == source.run.value && m.id.operation == source.operation.value && m.id.attempt == source.attempt && m.id.index == i
    && m.scope == scope.id && m.kind == d.kind && m.document == digest && m.admittedAt == now
    && m.source.unit == source.unit && m.source.run == source.run && m.source.agent == source.agent
    && m.source.operation == source.operation && m.source.attempt == source.attempt && m.source.system == source.system && m.source.index == i
    && (match d.subjectHandoff
        case None => m.subject == None
        case Some(h) => h in scope.subjects && m.subject == Some(scope.subjects[h]))
    && RoutedTo(d, m.subject, m.route)
    && m.inReplyTo == d.inReplyTo && m.supersedes == d.supersedes && m.purpose == d.purpose && m.category == d.category
    && m.expectedOutcome == d.expectedOutcome && m.options == d.options && m.body == d.body
  }

  lemma BoundIsRecord(d: Draft, i: nat, digest: Option<Id>, scope: Scope, source: Source, now: int)
    requires source.run.Some? && source.operation.Some? && source.attempt > 0
    requires WellShaped(d) && RefersInside(d, scope, source)
    ensures var id := IdentityOf(source.run, source.operation, source.attempt, i);
            id.Some? && RecordOf(d, i, digest, scope, source, now, Bound(d, id.value, i, digest, scope, source, now))
  {
  }

  // ---------------------------------------------------------------- one draft

  /** What is known to be corrected when the draft's turn comes. */
  ghost predicate KnowsCorrected(superseded: set<Option<MessageId>>, history: seq<Message>, drafts: seq<Draft>, i: nat)
    requires i <= |drafts|
  {
    forall x :: Some(x) !in superseded <==> Uncorrected(history, drafts, i, x)
  }

  lemma {:induction false} MayReplyExactly(drafts: seq<Draft>, i: nat, scope: Scope, source: Source, superseded: set<Option<MessageId>>)
    requires i < |drafts| && KnowsCorrected(superseded, scope.admitted, drafts, i)
    ensures MayReply(drafts[i], source, PriorOf(scope.admitted), superseded) <==> AnswersFit(drafts, i, scope, source)
  {
    if drafts[i].inReplyTo.Some? { PriorExactly(scope.admitted, drafts[i].inReplyTo.value); }
  }

  lemma {:induction false} MayCorrectExactly(drafts: seq<Draft>, i: nat, scope: Scope, source: Source, superseded: set<Option<MessageId>>)
    requires i < |drafts| && KnowsCorrected(superseded, scope.admitted, drafts, i)
    ensures MayCorrect(drafts[i], source, PriorOf(scope.admitted)) && (drafts[i].supersedes.Some? ==> drafts[i].supersedes !in superseded)
       <==> CorrectionFits(drafts, i, scope, source)
  {
    if drafts[i].supersedes.Some? { PriorExactly(scope.admitted, drafts[i].supersedes.value); }
  }

  lemma BoundValidExactly(d: Draft, id: MessageId, i: nat, digest: Option<Id>, scope: Scope, source: Source, now: int)
    requires DraftValid(d) && (d.subjectHandoff.Some? ==> d.subjectHandoff.value in scope.subjects)
    ensures MessageValid(Bound(d, id, i, digest, scope, source, now)) && source.run.Some? && source.operation.Some? && source.attempt > 0
       <==> Attested(digest, scope, source, now)
              && (d.kind == Finding && d.subjectHandoff.Some? ==> scope.subjects[d.subjectHandoff.value].handoff != None)
  {
    var m := Bound(d, id, i, digest, scope, source, now);
    assert d.kind.CollaborationRequest? || d.target.None?;
    assert DraftOf(m) == d.(subjectHandoff := if m.subject.Some? then m.subject.value.handoff else None);
  }

  lemma {:induction false} DraftAdmittedExactly(drafts: seq<Draft>, i: nat, digest: Option<Id>, scope: Scope, source: Source, now: int, superseded: set<Option<MessageId>>)
    requires i < |drafts| && DraftValid(drafts[i]) && KnowsCorrected(superseded, scope.admitted, drafts, i)
    ensures var m := AdmitDraft(drafts[i], i, digest, scope, source, PriorOf(scope.admitted), superseded, now);
            && (m.Some? && (m.value.supersedes.Some? ==> m.value.supersedes !in superseded) <==>
                  Attested(digest, scope, source, now) && DraftFits(drafts, i, scope, source))
            && (m.Some? && DraftFits(drafts, i, scope, source) ==> RecordOf(drafts[i], i, digest, scope, source, now, m.value))
  {
    var d := drafts[i];
    ShapedExactly(d);
    MayReplyExactly(drafts, i, scope, source, superseded);
    MayCorrectExactly(drafts, i, scope, source, superseded);
    var id := IdentityOf(source.run, source.operation, source.attempt, i);
    if id.Some? && (d.subjectHandoff.Some? ==> d.subjectHandoff.value in scope.subjects) {
      BoundValidExactly(d, id.value, i, digest, scope, source, now);
      if RefersInside(d, scope, source) { BoundIsRecord(d, i, digest, scope, source, now); }
    }
  }

  // ---------------------------------------------------------------- the report

  ghost predicate RecordsOf(drafts: seq<Draft>, n: nat, digest: Option<Id>, scope: Scope, source: Source, now: int, ms: seq<Message>)
    requires n <= |drafts|
  {
    |ms| == n && forall i | 0 <= i < n :: RecordOf(drafts[i], i, digest, scope, source, now, ms[i])
  }

  lemma {:induction false} RecordsKnow(drafts: seq<Draft>, n: nat, digest: Option<Id>, scope: Scope, source: Source, now: int, ms: seq<Message>)
    requires n <= |drafts| && RecordsOf(drafts, n, digest, scope, source, now, ms)
    ensures KnowsCorrected(SupersededIn(scope.admitted + ms), scope.admitted, drafts, n)
  {
    var all := scope.admitted + ms;
    forall x ensures Some(x) !in SupersededIn(all) <==> Uncorrected(scope.admitted, drafts, n, x) {
      if Some(x) in SupersededIn(all) {
        var m :| m in all && m.supersedes == Some(x);
        if m !in scope.admitted {
          var j :| 0 <= j < n && ms[j] == m;
          assert drafts[j].supersedes == Some(x);
        }
      }
      if m :| m in scope.admitted && m.supersedes == Some(x) { assert m in all; }
      if j :| 0 <= j < n && drafts[j].supersedes == Some(x) { assert ms[j] in all && ms[j].supersedes == Some(x); }
    }
  }

  lemma {:induction false} NextAdmitted(drafts: seq<Draft>, n: nat, digest: Option<Id>, scope: Scope, source: Source, now: int, before: seq<Message>)
    requires n < |drafts| && DraftValid(drafts[n])
    requires AdmitFirst(drafts, n, digest, scope, source, now) == Some(before) && RecordsOf(drafts, n, digest, scope, source, now, before)
    ensures AdmitFirst(drafts, n + 1, digest, scope, source, now).Some? <==> Attested(digest, scope, source, now) && DraftFits(drafts, n, scope, source)
    ensures AdmitFirst(drafts, n + 1, digest, scope, source, now).Some? ==>
              RecordsOf(drafts, n + 1, digest, scope, source, now, AdmitFirst(drafts, n + 1, digest, scope, source, now).value)
  {
    RecordsKnow(drafts, n, digest, scope, source, now, before);
    DraftAdmittedExactly(drafts, n, digest, scope, source, now, SupersededIn(scope.admitted + before));
  }

  /** The first `n` drafts of the report all fit. */
  ghost predicate AllFit(drafts: seq<Draft>, n: nat, digest: Option<Id>, scope: Scope, source: Source, now: int)
    requires n <= |drafts|
  {
    (n > 0 ==> Attested(digest, scope, source, now)) && forall i | 0 <= i < n :: DraftFits(drafts, i, scope, source)
  }

  ghost predicate AllValid(drafts: seq<Draft>) {
    forall i | 0 <= i < |drafts| :: DraftValid(drafts[i])
  }

  /** All or nothing: the records of the first `n` drafts where all of them fit, and otherwise none. */
  ghost predicate AllOrNothing(drafts: seq<Draft>, n: nat, digest: Option<Id>, scope: Scope, source: Source, now: int, r: Option<seq<Message>>)
    requires n <= |drafts|
  {
    && (r.Some? <==> AllFit(drafts, n, digest, scope, source, now))
    && (r.Some? ==> RecordsOf(drafts, n, digest, scope, source, now, r.value))
  }

  /** So far the drafts have been admitted as they should be. */
  ghost predicate RightSoFar(drafts: seq<Draft>, n: nat, digest: Option<Id>, scope: Scope, source: Source, now: int)
    requires n <= |drafts|
  {
    AllOrNothing(drafts, n, digest, scope, source, now, AdmitFirst(drafts, n, digest, scope, source, now))
  }

  lemma {:induction false} NoneYet(drafts: seq<Draft>, digest: Option<Id>, scope: Scope, source: Source, now: int)
    ensures RightSoFar(drafts, 0, digest, scope, source, now)
  {
  }

  lemma {:induction false} OneMore(drafts: seq<Draft>, n: nat, digest: Option<Id>, scope: Scope, source: Source, now: int)
    requires n < |drafts| && AllValid(drafts) && RightSoFar(drafts, n, digest, scope, source, now)
    ensures RightSoFar(drafts, n + 1, digest, scope, source, now)
  {
    var before := AdmitFirst(drafts, n, digest, scope, source, now);
    if before.Some? {
      NextAdmitted(drafts, n, digest, scope, source, now, before.value);
    } else {
      AdmitFirstStops(drafts, n, n + 1, digest, scope, source, now);
    }
  }

  lemma {:induction false} FirstAdmitted(drafts: seq<Draft>, n: nat, digest: Option<Id>, scope: Scope, source: Source, now: int)
    requires n <= |drafts| && AllValid(drafts)
    ensures RightSoFar(drafts, n, digest, scope, source, now)
  {
    if n == 0 {
      NoneYet(drafts, digest, scope, source, now);
    } else {
      FirstAdmitted(drafts, n - 1, digest, scope, source, now);
      OneMore(drafts, n - 1, digest, scope, source, now);
    }
  }

  /** A report is admitted exactly when all of it fits, and then draft by draft as its records; one draft that does not fit refuses it whole. */
  lemma {:induction false} AdmittedExactly(report: Report, digest: Option<Id>, scope: Scope, source: Source, now: int)
    ensures Admission(report, digest, scope, source, now).Some? <==> Admissible(report, digest, scope, source, now)
    ensures Admission(report, digest, scope, source, now).Some? ==>
              RecordsOf(report.messages, |report.messages|, digest, scope, source, now, Admission(report, digest, scope, source, now).value)
  {
    if Admissible(report, digest, scope, source, now) {
      forall i | 0 <= i < |report.messages| ensures DraftValid(report.messages[i]) {
        assert DraftFits(report.messages, i, scope, source);
        ShapedExactly(report.messages[i]);
      }
    }
    if ScopeAccepts(report, scope, source) {
      FirstAdmitted(report.messages, |report.messages|, digest, scope, source, now);
    }
  }

  // ---------------------------------------------------------------- what is shown of a history

  lemma {:induction false} LiveAmongHas(messages: seq<Message>, gone: set<Option<MessageId>>, m: Message)
    ensures m in LiveAmong(messages, gone) <==> m in messages && Some(m.id) !in gone
  {
    if messages != [] { LiveAmongHas(messages[..|messages| - 1], gone, m); }
  }

  lemma {:induction false} LiveAmongJoins(a: seq<Message>, b: seq<Message>, gone: set<Option<MessageId>>)
    ensures LiveAmong(a + b, gone) == LiveAmong(a, gone) + LiveAmong(b, gone)
  {
    if b == [] {
      assert a + b == a;
    } else {
      assert (a + b)[..|a + b| - 1] == a + b[..|b| - 1];
      LiveAmongJoins(a, b[..|b| - 1], gone);
    }
  }

  /** Live are exactly the records nothing in the history corrects. */
  lemma LivingExactly(messages: seq<Message>, m: Message)
    ensures m in Living(messages) <==> m in messages && forall c | c in messages :: c.supersedes != Some(m.id)
  {
    LiveAmongHas(messages, SupersededIn(messages), m);
  }

  lemma {:induction false} OfKindExactly(messages: seq<Message>, kind: Kind, m: Message)
    ensures m in OfKind(messages, kind) <==> m in messages && m.kind == kind
  {
    if messages != [] { OfKindExactly(messages[..|messages| - 1], kind, m); }
  }

  /** Decisions stay open exactly while their request is live. */
  lemma OpenExactly(messages: seq<Message>, m: Message)
    ensures m in OfKind(Living(messages), DecisionRequest) <==>
              m in messages && m.kind == DecisionRequest && forall c | c in messages :: c.supersedes != Some(m.id)
  {
    OfKindExactly(Living(messages), DecisionRequest, m);
    LivingExactly(messages, m);
  }

  /** The record is put to the unit by name. */
  ghost predicate PutTo(m: Message, unit: Id) {
    m.route.audience == ToUnit && m.route.unit == Some(unit) && !(m.kind == StateUpdate && m.source.unit != unit)
  }

  /** A finding speaks of exactly what the unit has handed off last. */
  ghost predicate SpeaksOfCurrent(m: Message, current: Option<HandoffSubject>) {
    current.Some? && m.subject.Some? && m.subject.value.revision.base == current.value.base
    && m.subject.value.revision.revision == current.value.revision && m.subject.value.revision.tree == current.value.tree
  }

  /** Which of a unit's three lists a live record is on, if on any. */
  lemma {:induction false} FiledExactly(live: seq<Message>, unit: Id, current: Option<HandoffSubject>, m: Message)
    ensures m in FiledUnder(live, unit, current, Requests) <==> m in live && PutTo(m, unit) && m.kind != Finding
    ensures m in FiledUnder(live, unit, current, Findings) <==> m in live && PutTo(m, unit) && m.kind == Finding && SpeaksOfCurrent(m, current)
    ensures m in FiledUnder(live, unit, current, StaleFindings) <==>
              m in live && PutTo(m, unit) && m.kind == Finding && !SpeaksOfCurrent(m, current)
  {
    if live != [] { FiledExactly(live[..|live| - 1], unit, current, m); }
  }

  /** Each list keeps the order of the history. */
  lemma {:induction false} FiledJoins(a: seq<Message>, b: seq<Message>, unit: Id, current: Option<HandoffSubject>, l: List)
    ensures FiledUnder(a + b, unit, current, l) == FiledUnder(a, unit, current, l) + FiledUnder(b, unit, current, l)
  {
    if b == [] {
      assert a + b == a;
    } else {
      assert (a + b)[..|a + b| - 1] == a + b[..|b| - 1];
      FiledJoins(a, b[..|b| - 1], unit, current, l);
    }
  }

  /** The update shown of another unit is the last live one it made. */
  lemma {:induction false} LatestUpdateExactly(live: seq<Message>, unit: Id, other: Id, m: Message)
    ensures LatestUpdate(live, unit, other) == Some(m) <==>
              && other != unit && m.kind == StateUpdate && m.source.unit == other
              && exists k :: 0 <= k < |live| && live[k] == m && forall j | k < j < |live| :: !(live[j].kind == StateUpdate && live[j].source.unit == other)
  {
    if live != [] {
      var before, last := live[..|live| - 1], live[|live| - 1];
      LatestUpdateExactly(before, unit, other, m);
      if last.kind == StateUpdate && last.source.unit == other {
        assert live[|live| - 1] == last;
      } else {
        assert forall j | 0 <= j < |before| :: before[j] == live[j];
      }
    }
  }

  /** The newest sixteen, in order; fewer only where there are fewer. */
  lemma NewestExactly(s: seq<Message>)
    ensures |Newest(s)| == (if |s| < 16 then |s| else 16) && Newest(s) == s[|s| - |Newest(s)|..]
  {
  }
}
