/** What every message history reachable by admission keeps: linear chains, one live tip each, and no decision ever closed. */
module AdmissionLaws {
  import opened Ids
  import opened Messages
  import opened Admissions

  // ---------------------------------------------------------------- the invariant

  predicate Corrects(m: Message, earlier: Message) {
    m.supersedes == Some(earlier.id) && earlier.kind == m.kind && earlier.source.unit == m.source.unit
  }

  /** A response by the unit the request was addressed to, going back to the unit that asked. */
  predicate Answers(m: Message, earlier: Message) {
    && m.inReplyTo == Some(earlier.id) && earlier.kind.CollaborationRequest?
    && earlier.route.unit == Some(m.source.unit) && m.route.unit == Some(earlier.source.unit)
  }

  /** What a record is to the history it is appended to. */
  ghost predicate Belongs(m: Message, history: seq<Message>) {
    && MessageValid(m)
    && (forall x | x in history :: x.id != m.id)
    && (m.supersedes.Some? ==> m.supersedes !in SupersededIn(history) && exists x :: x in history && Corrects(m, x))
    && (m.inReplyTo.Some? ==> m.inReplyTo !in SupersededIn(history) && exists x :: x in history && Answers(m, x))
  }

  ghost predicate Sound(history: seq<Message>) {
    history == [] || (Sound(history[..|history| - 1]) && Belongs(history[|history| - 1], history[..|history| - 1]))
  }

  lemma {:induction false} SoundAppend(history: seq<Message>, m: Message)
    requires Sound(history) && Belongs(m, history)
    ensures Sound(history + [m])
  {
    assert (history + [m])[..|history|] == history;
  }

  // ---------------------------------------------------------------- one admission

  lemma {:induction false} PriorIsThere(history: seq<Message>, x: MessageId)
    requires x in PriorOf(history)
    ensures PriorOf(history)[x] in history && PriorOf(history)[x].id == x
  {
    if history[|history| - 1].id != x { PriorIsThere(history[..|history| - 1], x); }
  }

  /** No record of the history came from this invocation. */
  predicate Fresh(source: Source, history: seq<Message>) {
    forall x | x in history ::
      !(source.run == Some(x.id.run) && source.operation == Some(x.id.operation) && source.attempt == x.id.attempt)
  }

  lemma {:induction false} DraftBelongs(d: Draft, index: nat, digest: Option<Id>, scope: Scope, source: Source, now: int, before: seq<Message>, m: Message)
    requires Fresh(source, scope.admitted) && IndexedBelow(before, index)
    requires AdmitDraft(d, index, digest, scope, source, PriorOf(scope.admitted), SupersededIn(scope.admitted + before), now) == Some(m)
    requires m.supersedes.Some? ==> m.supersedes !in SupersededIn(scope.admitted + before)
    ensures Belongs(m, scope.admitted + before) && m.id.index == index
  {
    var history := scope.admitted + before;
    assert DraftValid(DraftOf(m));
    if d.supersedes.Some? {
      PriorIsThere(scope.admitted, d.supersedes.value);
      assert PriorOf(scope.admitted)[d.supersedes.value] in history;
    }
    if d.inReplyTo.Some? {
      PriorIsThere(scope.admitted, d.inReplyTo.value);
      assert PriorOf(scope.admitted)[d.inReplyTo.value] in history && Answers(m, PriorOf(scope.admitted)[d.inReplyTo.value]);
    }
  }

  predicate IndexedBelow(before: seq<Message>, n: nat) {
    forall x | x in before :: x.id.index < n
  }

  lemma {:induction false} AdmittedKeepsSound(history: seq<Message>, before: seq<Message>, m: Message, n: nat)
    requires Sound(history + before) && IndexedBelow(before, n) && Belongs(m, history + before) && m.id.index == n
    ensures Sound(history + (before + [m])) && IndexedBelow(before + [m], n + 1)
  {
    SoundAppend(history + before, m);
    assert history + (before + [m]) == (history + before) + [m];
  }

  lemma {:induction false} AdmittedCount(drafts: seq<Draft>, n: nat, digest: Option<Id>, scope: Scope, source: Source, now: int)
    requires n <= |drafts| && AdmitFirst(drafts, n, digest, scope, source, now).Some?
    ensures |AdmitFirst(drafts, n, digest, scope, source, now).value| == n
  {
    if n > 0 { AdmittedCount(drafts, n - 1, digest, scope, source, now); }
  }

  lemma {:induction false} LastAdmitted(drafts: seq<Draft>, n: nat, digest: Option<Id>, scope: Scope, source: Source, now: int, before: seq<Message>)
    returns (m: Message)
    requires 0 < n <= |drafts| && AdmitFirst(drafts, n, digest, scope, source, now).Some?
    requires AdmitFirst(drafts, n - 1, digest, scope, source, now) == Some(before)
    ensures AdmitFirst(drafts, n, digest, scope, source, now) == Some(before + [m])
    ensures AdmitDraft(drafts[n - 1], n - 1, digest, scope, source, PriorOf(scope.admitted), SupersededIn(scope.admitted + before), now) == Some(m)
    ensures m.supersedes.Some? ==> m.supersedes !in SupersededIn(scope.admitted + before)
  {
    m := AdmitDraft(drafts[n - 1], n - 1, digest, scope, source, PriorOf(scope.admitted), SupersededIn(scope.admitted + before), now).value;
  }

  /** The record a draft becomes belongs to the history it is appended to. */
  lemma {:induction false} LastBelongs(drafts: seq<Draft>, n: nat, digest: Option<Id>, scope: Scope, source: Source, now: int, before: seq<Message>)
    returns (m: Message)
    requires 0 < n <= |drafts| && Fresh(source, scope.admitted) && IndexedBelow(before, n - 1)
    requires AdmitFirst(drafts, n - 1, digest, scope, source, now) == Some(before)
    requires AdmitFirst(drafts, n, digest, scope, source, now).Some?
    ensures AdmitFirst(drafts, n, digest, scope, source, now) == Some(before + [m])
    ensures Belongs(m, scope.admitted + before) && m.id.index == n - 1
  {
    m := LastAdmitted(drafts, n, digest, scope, source, now, before);
    DraftBelongs(drafts[n - 1], n - 1, digest, scope, source, now, before, m);
  }

  lemma {:induction false} AdmittedNext(drafts: seq<Draft>, n: nat, digest: Option<Id>, scope: Scope, source: Source, now: int,
                                        before: seq<Message>, admitted: seq<Message>)
    requires 0 < n <= |drafts| && Fresh(source, scope.admitted) && IndexedBelow(before, n - 1) && Sound(scope.admitted + before)
    requires AdmitFirst(drafts, n - 1, digest, scope, source, now) == Some(before)
    requires AdmitFirst(drafts, n, digest, scope, source, now) == Some(admitted)
    ensures Sound(scope.admitted + admitted) && IndexedBelow(admitted, n)
  {
    var m := LastBelongs(drafts, n, digest, scope, source, now, before);
    AdmittedKeepsSound(scope.admitted, before, m, n - 1);
  }

  lemma {:induction false} NoneAdmitted(drafts: seq<Draft>, digest: Option<Id>, scope: Scope, source: Source, now: int, admitted: seq<Message>)
    requires Sound(scope.admitted) && AdmitFirst(drafts, 0, digest, scope, source, now) == Some(admitted)
    ensures Sound(scope.admitted + admitted) && IndexedBelow(admitted, 0)
  {
    assert admitted == [] && scope.admitted + [] == scope.admitted;
  }

  lemma {:induction false} AdmittedBefore(drafts: seq<Draft>, n: nat, digest: Option<Id>, scope: Scope, source: Source, now: int) returns (before: seq<Message>)
    requires 0 < n <= |drafts| && AdmitFirst(drafts, n, digest, scope, source, now).Some?
    ensures AdmitFirst(drafts, n - 1, digest, scope, source, now) == Some(before)
  {
    AdmitFirstStops(drafts, n - 1, n, digest, scope, source, now);
    before := AdmitFirst(drafts, n - 1, digest, scope, source, now).value;
  }

  lemma {:induction false} AdmittedBelong(drafts: seq<Draft>, n: nat, digest: Option<Id>, scope: Scope, source: Source, now: int, admitted: seq<Message>)
    requires n <= |drafts| && Sound(scope.admitted) && Fresh(source, scope.admitted)
    requires AdmitFirst(drafts, n, digest, scope, source, now) == Some(admitted)
    ensures Sound(scope.admitted + admitted) && IndexedBelow(admitted, n)
    decreases n
  {
    if n == 0 {
      NoneAdmitted(drafts, digest, scope, source, now, admitted);
    } else {
      var before := AdmittedBefore(drafts, n, digest, scope, source, now);
      AdmittedBelong(drafts, n - 1, digest, scope, source, now, before);
      AdmittedNext(drafts, n, digest, scope, source, now, before, admitted);
    }
  }

  // ---------------------------------------------------------------- runs

  /** One admission attempt; units and subjects are whatever the runtime's records say at that moment. */
  datatype Call = Call(
    report: Report, digest: Option<Id>, id: Option<Id>, units: seq<Id>, subjects: map<Id, Subject>, source: Source, now: int)

  function After(history: seq<Message>, c: Call): seq<Message> {
    var admitted := Admission(c.report, c.digest, Scope(c.id, c.units, c.subjects, history), c.source, c.now);
    if admitted.None? then history else history + admitted.value
  }

  /** The history a scope has after a list of admission attempts, oldest first. */
  function HistoryOf(calls: seq<Call>): seq<Message> {
    if calls == [] then [] else After(HistoryOf(calls[..|calls| - 1]), calls[|calls| - 1])
  }

  /** Every invocation reports once. */
  ghost predicate FreshRun(calls: seq<Call>) {
    forall n | 0 <= n < |calls| :: Fresh(calls[n].source, HistoryOf(calls[..n]))
  }

  lemma {:induction false} AttemptKeepsSound(history: seq<Message>, c: Call)
    requires Sound(history) && |history| <= MAX_SCOPE_MESSAGES && Fresh(c.source, history)
    ensures Sound(After(history, c)) && history <= After(history, c) && |After(history, c)| <= MAX_SCOPE_MESSAGES
  {
    var scope := Scope(c.id, c.units, c.subjects, history);
    if Admission(c.report, c.digest, scope, c.source, c.now).Some? {
      AdmittedBelong(c.report.messages, |c.report.messages|, c.digest, scope, c.source, c.now,
                     Admission(c.report, c.digest, scope, c.source, c.now).value);
      AdmittedCount(c.report.messages, |c.report.messages|, c.digest, scope, c.source, c.now);
    }
  }

  lemma {:induction false} RunIsSound(calls: seq<Call>)
    requires FreshRun(calls)
    ensures Sound(HistoryOf(calls)) && |HistoryOf(calls)| <= MAX_SCOPE_MESSAGES
  {
    if calls != [] {
      var earlier := calls[..|calls| - 1];
      forall n | 0 <= n < |earlier| ensures Fresh(earlier[n].source, HistoryOf(earlier[..n])) {
        assert calls[..n] == earlier[..n];
      }
      RunIsSound(earlier);
      AttemptKeepsSound(HistoryOf(earlier), calls[|calls| - 1]);
    }
  }

  /** History is only ever appended to. */
  lemma {:induction false} RunOnlyAppends(calls: seq<Call>, n: nat)
    requires n <= |calls|
    ensures HistoryOf(calls[..n]) <= HistoryOf(calls)
    decreases |calls|
  {
    if n == |calls| {
      assert calls[..n] == calls;
    } else {
      var earlier := calls[..|calls| - 1];
      assert earlier[..n] == calls[..n];
      RunOnlyAppends(earlier, n);
    }
  }

  // ---------------------------------------------------------------- what soundness says of supersession

  lemma {:induction false} SupersededAreThere(history: seq<Message>, x: MessageId)
    requires Sound(history) && Some(x) in SupersededIn(history)
    ensures exists y :: y in history && y.id == x
  {
    var n := |history| - 1;
    if history[n].supersedes != Some(x) {
      assert history == history[..n] + [history[n]];
      SupersededAreThere(history[..n], x);
      var y :| y in history[..n] && y.id == x;
      assert y in history;
    } else {
      var y :| y in history[..n] && Corrects(history[n], y);
      assert y in history;
    }
  }

  lemma {:induction false} IdsAreUnique(history: seq<Message>, i: nat, j: nat)
    requires Sound(history) && i < j < |history|
    ensures history[i].id != history[j].id
  {
    var n := |history| - 1;
    if j < n {
      IdsAreUnique(history[..n], i, j);
    } else {
      assert history[..n][i] in history[..n];
    }
  }

  /** A new record is live, and it takes exactly the record it corrects out of the living. */
  lemma {:induction false} AppendMovesLive(history: seq<Message>, m: Message, x: MessageId)
    requires Sound(history) && Belongs(m, history)
    ensures Some(m.id) !in SupersededIn(history + [m])
    ensures Some(x) in SupersededIn(history + [m]) <==> Some(x) in SupersededIn(history) || m.supersedes == Some(x)
  {
    IndexedNext(history, m);
    if Some(m.id) in SupersededIn(history) { SupersededAreThere(history, m.id); }
  }

  // ---------------------------------------------------------------- chains

  /** Follows corrections forward from `x` to the end of its chain. */
  function TipOf(history: seq<Message>, x: MessageId): MessageId {
    if history == [] then x
    else
      var t := TipOf(history[..|history| - 1], x);
      if history[|history| - 1].supersedes == Some(t) then history[|history| - 1].id else t
  }

  /** Follows corrections back from `x` to the record its chain began with. */
  function RootOf(history: seq<Message>, x: MessageId): MessageId {
    if history == [] then x
    else
      var last, before := history[|history| - 1], history[..|history| - 1];
      if last.id != x then RootOf(before, x)
      else if last.supersedes.None? then x
      else RootOf(before, last.supersedes.value)
  }

  ghost predicate LiveIn(history: seq<Message>, x: MessageId) {
    Some(x) !in SupersededIn(history)
  }

  predicate Has(history: seq<Message>, x: MessageId, kind: Kind, unit: Id) {
    exists m :: m in history && m.id == x && m.kind == kind && m.source.unit == unit
  }

  lemma {:induction false} UnknownIsItsOwnTip(history: seq<Message>, x: MessageId)
    requires Sound(history) && LiveIn(history, x)
    ensures TipOf(history, x) == x
  {
    if history != [] {
      var n := |history| - 1;
      assert history == history[..n] + [history[n]];
      AppendMovesLive(history[..n], history[n], x);
      UnknownIsItsOwnTip(history[..n], x);
    }
  }

  /** A chain keeps to one kind and one source unit, and its tip is live. */
  lemma {:induction false} TipIsLive(history: seq<Message>, x: MessageId, kind: Kind, unit: Id)
    requires Sound(history) && Has(history, x, kind, unit)
    ensures LiveIn(history, TipOf(history, x)) && Has(history, TipOf(history, x), kind, unit)
  {
    var n := |history| - 1;
    var before, last := history[..n], history[n];
    assert history == before + [last];
    var m :| m in history && m.id == x && m.kind == kind && m.source.unit == unit;
    if m == last {
      AppendMovesLive(before, last, x);
      UnknownIsItsOwnTip(history, x);
    } else {
      assert m in before;
      TipIsLive(before, x, kind, unit);
      StepTip(before, last, TipOf(before, x), kind, unit);
    }
  }

  lemma {:induction false} StepTip(before: seq<Message>, last: Message, t: MessageId, kind: Kind, unit: Id)
    requires Sound(before) && Belongs(last, before) && LiveIn(before, t) && Has(before, t, kind, unit)
    ensures last.supersedes == Some(t) ==> LiveIn(before + [last], last.id) && Has(before + [last], last.id, kind, unit)
    ensures last.supersedes != Some(t) ==> LiveIn(before + [last], t) && Has(before + [last], t, kind, unit)
  {
    AppendMovesLive(before, last, t);
    var m :| m in before && m.id == t && m.kind == kind && m.source.unit == unit;
    assert m in before + [last] && last in before + [last];
    if last.supersedes == Some(t) {
      var c :| c in before && Corrects(last, c);
      SameIdSame(before, c, m);
    }
  }

  lemma {:induction false} SameIdSame(history: seq<Message>, a: Message, b: Message)
    requires Sound(history) && a in history && b in history && a.id == b.id
    ensures a == b
  {
    var i :| 0 <= i < |history| && history[i] == a;
    var j :| 0 <= j < |history| && history[j] == b;
    if i < j { IdsAreUnique(history, i, j); }
    if j < i { IdsAreUnique(history, j, i); }
  }

  /** Going back to the root and forward again ends at the same tip, so a chain has one. */
  lemma {:induction false} RootLeadsToTip(history: seq<Message>, x: MessageId)
    requires Sound(history)
    ensures TipOf(history, RootOf(history, x)) == TipOf(history, x)
  {
    if history != [] {
      var n := |history| - 1;
      var before, last := history[..n], history[n];
      assert history == before + [last];
      if last.id != x {
        RootLeadsToTip(before, x);
      } else {
        AppendMovesLive(before, last, x);
        UnknownIsItsOwnTip(history, x);
        if last.supersedes.Some? {
          RootLeadsToTip(before, last.supersedes.value);
          UnknownIsItsOwnTip(before, last.supersedes.value);
        }
      }
    }
  }

  /** Exactly one record of each chain is live: the live record with this root is its tip. */
  lemma {:induction false} OneLivePerChain(history: seq<Message>, x: MessageId, y: MessageId)
    requires Sound(history) && LiveIn(history, x) && LiveIn(history, y)
    requires RootOf(history, x) == RootOf(history, y)
    ensures x == y
  {
    RootLeadsToTip(history, x);
    RootLeadsToTip(history, y);
    UnknownIsItsOwnTip(history, x);
    UnknownIsItsOwnTip(history, y);
  }

  // ---------------------------------------------------------------- counting the living

  predicate InClass(m: Message, kind: Kind, unit: Option<Id>) {
    m.kind == kind && (unit.Some? ==> m.source.unit == unit.value)
  }

  /** The live records of a kind, and of one source unit if one is named. */
  function LiveIds(history: seq<Message>, kind: Kind, unit: Option<Id>): set<MessageId> {
    set m | m in history && InClass(m, kind, unit) && Some(m.id) !in SupersededIn(history) :: m.id
  }

  /** The records that correct nothing: one per chain. */
  function Roots(history: seq<Message>, kind: Kind, unit: Option<Id>): nat {
    if history == [] then 0
    else
      var last := history[|history| - 1];
      Roots(history[..|history| - 1], kind, unit) + if InClass(last, kind, unit) && last.supersedes.None? then 1 else 0
  }

  /** The record a new one corrects was live, of its kind and from its unit. */
  lemma {:induction false} CorrectedWasLive(history: seq<Message>, m: Message, kind: Kind, unit: Option<Id>)
    requires Sound(history) && Belongs(m, history) && m.supersedes.Some?
    ensures InClass(m, kind, unit) <==> m.supersedes.value in LiveIds(history, kind, unit)
  {
    var c :| c in history && Corrects(m, c);
    forall x | x in history && x.id == c.id ensures x == c { SameIdSame(history, x, c); }
  }

  lemma {:induction false} LiveAfter(history: seq<Message>, m: Message, kind: Kind, unit: Option<Id>, x: MessageId)
    requires Sound(history) && Belongs(m, history)
    ensures x in LiveIds(history + [m], kind, unit)
       <==> (x in LiveIds(history, kind, unit) && m.supersedes != Some(x)) || (x == m.id && InClass(m, kind, unit))
  {
    AppendMovesLive(history, m, x);
    assert forall y :: y in history + [m] <==> y in history || y == m;
  }

  /** One member out, one member in. */
  lemma Swapped(before: set<MessageId>, after: set<MessageId>, gone: Option<MessageId>, new_: MessageId, counted: bool)
    requires new_ !in before
    requires gone.Some? ==> (counted <==> gone.value in before)
    requires forall x :: x in after <==> (x in before && gone != Some(x)) || (x == new_ && counted)
    ensures |after| == |before| + if counted && gone.None? then 1 else 0
  {
    var left := if gone.Some? then before - {gone.value} else before;
    assert after == left + if counted then {new_} else {};
  }

  lemma {:induction false} LiveOneMore(history: seq<Message>, m: Message, kind: Kind, unit: Option<Id>)
    requires Sound(history) && Belongs(m, history)
    ensures |LiveIds(history + [m], kind, unit)|
         == |LiveIds(history, kind, unit)| + if InClass(m, kind, unit) && m.supersedes.None? then 1 else 0
  {
    if m.supersedes.Some? { CorrectedWasLive(history, m, kind, unit); }
    forall x { LiveAfter(history, m, kind, unit, x); }
    Swapped(LiveIds(history, kind, unit), LiveIds(history + [m], kind, unit), m.supersedes, m.id, InClass(m, kind, unit));
  }

  /** The number of live records of a kind and a unit is the number of chains of that kind and unit. */
  lemma {:induction false} LivePerRoot(history: seq<Message>, kind: Kind, unit: Option<Id>)
    requires Sound(history)
    ensures |LiveIds(history, kind, unit)| == Roots(history, kind, unit)
  {
    if history == [] {
      assert LiveIds(history, kind, unit) == {};
    } else {
      var n := |history| - 1;
      LivePerRoot(history[..n], kind, unit);
      LiveOneMore(history[..n], history[n], kind, unit);
      assert history == history[..n] + [history[n]];
    }
  }

  function IdsOf(history: seq<Message>, gone: set<Option<MessageId>>, kind: Kind): set<MessageId> {
    set m | m in history && m.kind == kind && Some(m.id) !in gone :: m.id
  }

  lemma {:induction false} IdsOneMore(history: seq<Message>, m: Message, gone: set<Option<MessageId>>, kind: Kind)
    requires forall x | x in history :: x.id != m.id
    ensures |IdsOf(history + [m], gone, kind)| == |IdsOf(history, gone, kind)| + if m.kind == kind && Some(m.id) !in gone then 1 else 0
  {
    var ids, after := IdsOf(history, gone, kind), IdsOf(history + [m], gone, kind);
    assert forall x :: x in history + [m] <==> x in history || x == m;
    assert m.id !in ids;
    if m.kind == kind && Some(m.id) !in gone {
      assert m in history + [m];
      assert after == ids + {m.id};
    } else {
      assert after == ids;
    }
  }

  ghost predicate DistinctIds(history: seq<Message>) {
    forall i, j | 0 <= i < j < |history| :: history[i].id != history[j].id
  }

  lemma {:induction false} SoundIsDistinct(history: seq<Message>)
    requires Sound(history)
    ensures DistinctIds(history)
  {
    forall i, j | 0 <= i < j < |history| ensures history[i].id != history[j].id { IdsAreUnique(history, i, j); }
  }

  /** The list `Live` gives has each of them once. */
  lemma {:induction false} ListedOnce(history: seq<Message>, gone: set<Option<MessageId>>, kind: Kind)
    requires DistinctIds(history)
    ensures |OfKind(LiveAmong(history, gone), kind)| == |IdsOf(history, gone, kind)|
  {
    if history == [] {
      assert IdsOf(history, gone, kind) == {};
    } else {
      var n := |history| - 1;
      var before, last := history[..n], history[n];
      assert DistinctIds(before);
      ListedOnce(before, gone, kind);
      assert history == before + [last];
      IdsOneMore(before, last, gone, kind);
      ListedOneMore(before, last, gone, kind);
    }
  }

  lemma {:induction false} ListedOneMore(before: seq<Message>, last: Message, gone: set<Option<MessageId>>, kind: Kind)
    ensures |OfKind(LiveAmong(before + [last], gone), kind)|
         == |OfKind(LiveAmong(before, gone), kind)| + if Some(last.id) !in gone && last.kind == kind then 1 else 0
  {
    assert (before + [last])[..|before|] == before;
    var live := LiveAmong(before, gone);
    assert (live + [last])[..|live|] == live;
    assert live + [] == live;
  }

  lemma {:induction false} LiveCount(history: seq<Message>, kind: Kind)
    requires Sound(history)
    ensures |OfKind(Living(history), kind)| == Roots(history, kind, None)
  {
    SoundIsDistinct(history);
    ListedOnce(history, SupersededIn(history), kind);
    assert LiveIds(history, kind, None) == IdsOf(history, SupersededIn(history), kind);
    LivePerRoot(history, kind, None);
  }

  lemma {:induction false} RootsGrow(history: seq<Message>, n: nat, kind: Kind, unit: Option<Id>)
    requires n <= |history|
    ensures Roots(history[..n], kind, unit) <= Roots(history, kind, unit)
  {
    if n == |history| {
      assert history[..n] == history;
    } else {
      assert history[..|history| - 1][..n] == history[..n];
      RootsGrow(history[..|history| - 1], n, kind, unit);
    }
  }

  lemma {:induction false} FreshPrefix(calls: seq<Call>, n: nat)
    requires FreshRun(calls) && n <= |calls|
    ensures FreshRun(calls[..n])
  {
    forall k | 0 <= k < n ensures Fresh(calls[..n][k].source, HistoryOf(calls[..n][..k])) {
      assert calls[..n][..k] == calls[..k];
    }
  }

  lemma {:induction false} LaterDecisions(earlier: seq<Message>, later: seq<Message>, m: Message)
    requires Sound(earlier) && Sound(later) && earlier <= later && m in earlier && m.kind.DecisionRequest?
    ensures |OfKind(Living(earlier), DecisionRequest)| <= |OfKind(Living(later), DecisionRequest)|
    ensures LiveIn(later, TipOf(later, m.id)) && Has(later, TipOf(later, m.id), DecisionRequest, m.source.unit)
  {
    LiveCount(earlier, DecisionRequest);
    LiveCount(later, DecisionRequest);
    assert later[..|earlier|] == earlier;
    RootsGrow(later, |earlier|, DecisionRequest, None);
    assert m in later;
    TipIsLive(later, m.id, DecisionRequest, m.source.unit);
  }

  /**
    No report a worker can write closes a decision: over any run, the open decisions never
    decrease in number, and each one is still open itself or through a later correction by
    the unit that asked it.
   */
  lemma {:induction false} DecisionsStayOpen(calls: seq<Call>, n: nat, m: Message)
    requires FreshRun(calls) && n <= |calls| && m in HistoryOf(calls[..n]) && m.kind.DecisionRequest?
    ensures |OfKind(Living(HistoryOf(calls[..n])), DecisionRequest)| <= |OfKind(Living(HistoryOf(calls)), DecisionRequest)|
    ensures LiveIn(HistoryOf(calls), TipOf(HistoryOf(calls), m.id))
         && Has(HistoryOf(calls), TipOf(HistoryOf(calls), m.id), DecisionRequest, m.source.unit)
  {
    FreshPrefix(calls, n);
    RunIsSound(calls[..n]);
    RunIsSound(calls);
    RunOnlyAppends(calls, n);
    LaterDecisions(HistoryOf(calls[..n]), HistoryOf(calls), m);
  }

  /** Authority is never answered by a reply: whatever is in reply to something answers a collaboration request. */
  lemma {:induction false} RepliesAnswerRequests(history: seq<Message>, i: nat)
    requires Sound(history) && i < |history| && history[i].inReplyTo.Some?
    ensures exists j :: 0 <= j < i && Answers(history[i], history[j])
  {
    var n := |history| - 1;
    if i < n {
      RepliesAnswerRequests(history[..n], i);
      var j :| 0 <= j < i && Answers(history[..n][i], history[..n][j]);
      assert Answers(history[i], history[j]);
    } else {
      var x :| x in history[..n] && Answers(history[n], x);
      var j :| 0 <= j < n && history[..n][j] == x;
      assert Answers(history[i], history[j]);
    }
  }
}
