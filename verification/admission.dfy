/** Admitting one invocation's report against the message history of its scope. */
module Admissions {
  import opened Ids
  import opened Messages

  datatype Scope = Scope(id: Option<Id>, units: seq<Id>, subjects: map<Id, Subject>, admitted: seq<Message>)

  /** The history by identity. */
  function PriorOf(history: seq<Message>): map<MessageId, Message> {
    if history == [] then map[]
    else PriorOf(history[..|history| - 1])[history[|history| - 1].id := history[|history| - 1]]
  }

  function SupersededIn(history: seq<Message>): set<Option<MessageId>> {
    set m | m in history :: m.supersedes
  }

  /** The draft with everything the runtime owns filled in. */
  function Bound(d: Draft, id: MessageId, index: nat, digest: Option<Id>, scope: Scope, source: Source, now: int): Message {
    var subject := if d.subjectHandoff.Some? && d.subjectHandoff.value in scope.subjects
                   then Some(scope.subjects[d.subjectHandoff.value]) else None;
    Message(MESSAGE_SCHEMA_VERSION, id, scope.id, d.kind, source.(index := index), RouteOf(d.kind, d.target, subject), subject,
            d.inReplyTo, d.supersedes, d.purpose, d.category, d.expectedOutcome, d.options, d.body, digest, now)
  }

  /** Whatever replies names a known, unsuperseded collaboration request routed to the writer, and targets the unit that asked. */
  predicate MayReply(d: Draft, source: Source, prior: map<MessageId, Message>, superseded: set<Option<MessageId>>) {
    d.inReplyTo.Some? ==>
      && d.inReplyTo.value in prior
      && var request := prior[d.inReplyTo.value];
         && request.kind.CollaborationRequest? && request.route.unit == Some(source.unit)
         && d.inReplyTo !in superseded
         && d.target == Some(request.source.unit)
  }

  /** Whatever supersedes names a known record that agrees with it in kind and in source unit. */
  predicate MayCorrect(d: Draft, source: Source, prior: map<MessageId, Message>) {
    d.supersedes.Some? ==>
      && d.supersedes.value in prior
      && prior[d.supersedes.value].kind == d.kind
      && prior[d.supersedes.value].source.unit == source.unit
  }

  function AdmitDraft(d: Draft, index: nat, digest: Option<Id>, scope: Scope, source: Source,
                      prior: map<MessageId, Message>, superseded: set<Option<MessageId>>, now: int): Option<Message> {
    var id := IdentityOf(source.run, source.operation, source.attempt, index);
    if id.None? then None
    else if d.subjectHandoff.Some? && d.subjectHandoff.value !in scope.subjects then None
    else if d.target.Some? && (d.target.value !in scope.units || d.target.value == source.unit) then None
    else if !MayReply(d, source, prior, superseded) then None
    else if !MayCorrect(d, source, prior) then None
    else
      var m := Bound(d, id.value, index, digest, scope, source, now);
      if MessageValid(m) then Some(m) else None
  }

  /** The first `n` drafts of a report, each admitted knowing what the ones before it superseded. */
  function AdmitFirst(drafts: seq<Draft>, n: nat, digest: Option<Id>, scope: Scope, source: Source, now: int): Option<seq<Message>>
    requires n <= |drafts|
  {
    if n == 0 then Some([])
    else
      var before := AdmitFirst(drafts, n - 1, digest, scope, source, now);
      if before.None? then None
      else
        var superseded := SupersededIn(scope.admitted + before.value);
        var m := AdmitDraft(drafts[n - 1], n - 1, digest, scope, source, PriorOf(scope.admitted), superseded, now);
        if m.None? || (m.value.supersedes.Some? && m.value.supersedes in superseded) then None
        else Some(before.value + [m.value])
  }

  predicate ScopeAccepts(report: Report, scope: Scope, source: Source) {
    && ReportValid(report)
    && |scope.units| <= MAX_SCOPE_UNITS
    && source.unit in scope.units
    && |scope.admitted| + |report.messages| <= MAX_SCOPE_MESSAGES
  }

  function Admission(report: Report, digest: Option<Id>, scope: Scope, source: Source, now: int): Option<seq<Message>> {
    if !ScopeAccepts(report, scope, source) then None
    else AdmitFirst(report.messages, |report.messages|, digest, scope, source, now)
  }

  lemma {:induction false} AdmitFirstStops(drafts: seq<Draft>, n: nat, m: nat, digest: Option<Id>, scope: Scope, source: Source, now: int)
    requires n <= m <= |drafts|
    ensures AdmitFirst(drafts, n, digest, scope, source, now).None? ==> AdmitFirst(drafts, m, digest, scope, source, now).None?
    decreases m
  {
    if n < m { AdmitFirstStops(drafts, n, m - 1, digest, scope, source, now); }
  }

  lemma {:induction false} IndexedNext(history: seq<Message>, m: Message)
    ensures PriorOf(history + [m]) == PriorOf(history)[m.id := m]
    ensures SupersededIn(history + [m]) == SupersededIn(history) + {m.supersedes}
  {
    assert (history + [m])[..|history|] == history;
    assert forall x :: x in history + [m] <==> x in history || x == m;
  }

  /** The records by id, and what they supersede. */
  method IndexHistory(history: seq<Message>) returns (prior: map<MessageId, Message>, superseded: set<Option<MessageId>>)
    ensures prior == PriorOf(history) && superseded == SupersededIn(history)
  {
    prior, superseded := map[], {};
    for i := 0 to |history|
      invariant prior == PriorOf(history[..i])
      invariant superseded == SupersededIn(history[..i])
    {
      assert history[..i + 1] == history[..i] + [history[i]];
      IndexedNext(history[..i], history[i]);
      prior := prior[history[i].id := history[i]];
      superseded := superseded + {history[i].supersedes};
    }
    assert history[..|history|] == history;
  }

  lemma {:induction false} AdmitNext(drafts: seq<Draft>, i: nat, digest: Option<Id>, scope: Scope, source: Source, now: int, admitted: seq<Message>)
    requires i < |drafts| && AdmitFirst(drafts, i, digest, scope, source, now) == Some(admitted)
    ensures var superseded := SupersededIn(scope.admitted + admitted);
            var m := AdmitDraft(drafts[i], i, digest, scope, source, PriorOf(scope.admitted), superseded, now);
            if m.None? || (m.value.supersedes.Some? && m.value.supersedes in superseded)
            then AdmitFirst(drafts, |drafts|, digest, scope, source, now).None?
            else && AdmitFirst(drafts, i + 1, digest, scope, source, now) == Some(admitted + [m.value])
                 && SupersededIn(scope.admitted + (admitted + [m.value])) == superseded + {m.value.supersedes}
  {
    var m := AdmitDraft(drafts[i], i, digest, scope, source, PriorOf(scope.admitted), SupersededIn(scope.admitted + admitted), now);
    AdmitFirstStops(drafts, i + 1, |drafts|, digest, scope, source, now);
    if m.Some? {
      IndexedNext(scope.admitted + admitted, m.value);
      assert scope.admitted + (admitted + [m.value]) == (scope.admitted + admitted) + [m.value];
    }
  }

  /** The loop over the drafts of a report. */
  method AdmitDrafts(drafts: seq<Draft>, digest: Option<Id>, scope: Scope, source: Source,
                     prior: map<MessageId, Message>, known: set<Option<MessageId>>, now: int) returns (r: Option<seq<Message>>)
    requires prior == PriorOf(scope.admitted) && known == SupersededIn(scope.admitted)
    ensures r == AdmitFirst(drafts, |drafts|, digest, scope, source, now)
  {
    var admitted: seq<Message> := [];
    var superseded := known;
    assert scope.admitted + [] == scope.admitted;
    for i := 0 to |drafts|
      invariant AdmitFirst(drafts, i, digest, scope, source, now) == Some(admitted)
      invariant superseded == SupersededIn(scope.admitted + admitted)
    {
      AdmitNext(drafts, i, digest, scope, source, now, admitted);
      var m := AdmitDraft(drafts[i], i, digest, scope, source, prior, superseded, now);
      if m.None? { return None; }
      if m.value.supersedes.Some? && m.value.supersedes in superseded { return None; }
      superseded := superseded + {m.value.supersedes};
      admitted := admitted + [m.value];
    }
    return Some(admitted);
  }

  /** `AdmitMessages`: the admitted records, or `None` when the whole report is refused. */
  method AdmitMessages(report: Report, digest: Option<Id>, scope: Scope, source: Source, now: int) returns (r: Option<seq<Message>>)
    ensures r == Admission(report, digest, scope, source, now)
  {
    if !ReportValid(report) { return None; }
    if |scope.units| > MAX_SCOPE_UNITS { return None; }
    if source.unit !in scope.units { return None; }
    if |scope.admitted| + |report.messages| > MAX_SCOPE_MESSAGES { return None; }
    var prior, superseded := IndexHistory(scope.admitted);
    r := AdmitDrafts(report.messages, digest, scope, source, prior, superseded, now);
  }

  // ---------------------------------------------------------------- projections of a history

  function LiveAmong(messages: seq<Message>, superseded: set<Option<MessageId>>): seq<Message> {
    if messages == [] then []
    else
      var last := messages[|messages| - 1];
      LiveAmong(messages[..|messages| - 1], superseded) + if Some(last.id) in superseded then [] else [last]
  }

  function Living(messages: seq<Message>): seq<Message> {
    LiveAmong(messages, SupersededIn(messages))
  }

  /** `Live`: the subsequence of records no correction names. */
  method Live(messages: seq<Message>) returns (live: seq<Message>)
    ensures live == Living(messages)
  {
    var superseded: set<Option<MessageId>> := {};
    for i := 0 to |messages|
      invariant superseded == SupersededIn(messages[..i])
    {
      assert messages[..i + 1] == messages[..i] + [messages[i]];
      superseded := superseded + {messages[i].supersedes};
    }
    assert messages[..|messages|] == messages;
    live := [];
    for i := 0 to |messages|
      invariant live == LiveAmong(messages[..i], superseded)
    {
      assert messages[..i + 1][..i] == messages[..i];
      if Some(messages[i].id) !in superseded { live := live + [messages[i]]; }
    }
    assert messages[..|messages|] == messages;
  }

  function OfKind(messages: seq<Message>, kind: Kind): seq<Message> {
    if messages == [] then []
    else
      OfKind(messages[..|messages| - 1], kind)
      + if messages[|messages| - 1].kind == kind then [messages[|messages| - 1]] else []
  }

  /** `OpenDecisions`: the decision requests among the live records. */
  method OpenDecisions(messages: seq<Message>) returns (open: seq<Message>)
    ensures open == OfKind(Living(messages), DecisionRequest)
  {
    var live := Live(messages);
    open := [];
    for i := 0 to |live|
      invariant open == OfKind(live[..i], DecisionRequest)
    {
      assert live[..i + 1][..i] == live[..i];
      if live[i].kind == DecisionRequest { open := open + [live[i]]; }
    }
    assert live[..|live|] == live;
  }
}
