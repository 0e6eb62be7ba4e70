/** Which activity logs are accepted and what their ledgers and summaries say, in terms of the records alone. */
module ActivityAnswers {
  import opened Ids
  import opened Activity
  import opened LedgerLaws
  import opened Supervisions

  // ---------------------------------------------------------------- records

  /** The record starts the entry, stops it, audits it. */
  ghost predicate Starts(r: Record, id: EntryId) {
    r.op == Start && r.entry == id
  }

  ghost predicate Stops(r: Record, id: EntryId) {
    r.op == Stop && r.entry == id
  }

  ghost predicate Audits(r: Record, id: EntryId) {
    r.op == AuditOp && r.entry == id
  }

  /** A start names a known arm, an operator and a known kind, says which relay exactly when it is one, and identifies itself by its content. */
  ghost predicate StartFits(r: Record) {
    && (r.arm == Planned || r.arm == Direct) && r.operator != None
    && (|| r.kind == ActiveSupervision || r.kind == TaskPreparation || r.kind == ReviewingOutput || r.kind == AuthorityIntervened
        || r.kind == ManualRelay || r.kind == RecoveryWorkaround || r.kind == UnattendedWait || r.kind == FinalAcceptanceMerge)
    && (if r.kind == ManualRelay then r.relay == RelayPrompt || r.relay == RelayContext || r.relay == RelayFinding || r.relay == RelayStatus
        else r.relay == NoRelay)
    && r.entry.arm == r.arm && r.entry.operator == r.operator && r.entry.kind == r.kind && r.entry.relay == r.relay && r.entry.start == r.at
  }

  /** What a record asks of the records before it. */
  ghost predicate Fits(before: seq<Record>, r: Record) {
    && r.schemaVersion == 1 && r.at != 0
    && match r.op
       case Start => StartFits(r) && forall s | s in before :: !Starts(s, r.entry)
       case Stop => (exists s :: s in before && Starts(s, r.entry) && s.at < r.at) && forall s | s in before :: !Stops(s, r.entry)
       case AuditOp =>
         && (exists s :: s in before && Starts(s, r.entry) && s.kind == ManualRelay && r.auditor != None && r.auditor != s.operator)
         && (forall s | s in before :: !Audits(s, r.entry)) && r.evidenceIsDigest
       case UnknownOp(_) => false
  }

  ghost predicate AllFit(records: seq<Record>) {
    forall n | 0 <= n < |records| :: Fits(records[..n], records[n])
  }

  // ---------------------------------------------------------------- intervals

  /** The interval is what the entry's own start says, ended by its stop and audited by its audit, if there are any. */
  ghost predicate TellsOf(records: seq<Record>, x: Interval) {
    && (exists s :: s in records && Starts(s, x.id)
          && x.arm == s.arm && Some(x.operator) == s.operator && x.kind == s.kind && x.relay == s.relay && x.start == s.at)
    && (forall t :: x.end == Some(t) <==> EndedAt(records, x.id, t))
    && (forall a :: x.audit == Some(a) <==> AuditedBy(records, x.id, a))
  }

  ghost predicate EndedAt(records: seq<Record>, id: EntryId, t: int) {
    exists s :: s in records && Stops(s, id) && s.at == t
  }

  ghost predicate AuditedBy(records: seq<Record>, id: EntryId, a: Audit) {
    exists s :: s in records && Audits(s, id) && s.auditor == Some(a.auditor) && s.at == a.at
  }

  /** The intervals so far are one to each started entry, each as the records tell. */
  ghost predicate Tells(records: seq<Record>, f: Folded) {
    && (forall id :: id in f.byID <==> exists s :: s in records && Starts(s, id))
    && (forall s | s in records :: s.entry in f.byID)
    && forall id | id in f.byID :: f.byID[id].id == id && TellsOf(records, f.byID[id])
  }

  /** No entry is started, stopped or audited twice. */
  ghost predicate Once(records: seq<Record>) {
    && (forall s, t | s in records && t in records && s.op == t.op == Start && s.entry == t.entry :: s == t)
    && (forall s, t | s in records && t in records && s.op == t.op == Stop && s.entry == t.entry :: s == t)
    && (forall s, t | s in records && t in records && s.op == t.op == AuditOp && s.entry == t.entry :: s == t)
    && (forall s | s in records && s.op == AuditOp :: s.auditor != None)
  }

  lemma StartFitsExactly(f: Folded, r: Record)
    ensures StartAccepted(f, r) <==> StartFits(r) && r.entry !in f.byID
  {
  }

  /** The start of an entry that has been started. */
  lemma {:induction false} StartOf(before: seq<Record>, f: Folded, id: EntryId) returns (s: Record)
    requires Tells(before, f) && Once(before) && id in f.byID
    ensures s in before && Starts(s, id) && forall t | t in before && Starts(t, id) :: t == s
    ensures f.byID[id].arm == s.arm && Some(f.byID[id].operator) == s.operator && f.byID[id].kind == s.kind
    ensures f.byID[id].relay == s.relay && f.byID[id].start == s.at
  {
    var x := f.byID[id];
    s :| s in before && Starts(s, x.id)
      && x.arm == s.arm && Some(x.operator) == s.operator && x.kind == s.kind && x.relay == s.relay && x.start == s.at;
  }

  lemma {:induction false} OpenExactly(before: seq<Record>, x: Interval)
    requires TellsOf(before, x)
    ensures x.end.None? <==> forall s | s in before :: !Stops(s, x.id)
  {
    forall s | s in before && Stops(s, x.id) ensures x.end.Some? { assert EndedAt(before, x.id, s.at); }
    if x.end.Some? { assert EndedAt(before, x.id, x.end.value); }
  }

  lemma {:induction false} UnauditedExactly(before: seq<Record>, x: Interval)
    requires TellsOf(before, x) && Once(before)
    ensures x.audit.None? <==> forall s | s in before :: !Audits(s, x.id)
  {
    forall s | s in before && Audits(s, x.id) ensures x.audit.Some? { assert AuditedBy(before, x.id, Audit(s.auditor.value, s.at)); }
    if x.audit.Some? { assert AuditedBy(before, x.id, x.audit.value); }
  }

  lemma {:induction false} StopFitsExactly(before: seq<Record>, f: Folded, r: Record)
    requires Tells(before, f) && Once(before)
    ensures StopAccepted(f, r) <==> (exists s :: s in before && Starts(s, r.entry) && s.at < r.at) && forall s | s in before :: !Stops(s, r.entry)
  {
    if r.entry in f.byID {
      var s := StartOf(before, f, r.entry);
      OpenExactly(before, f.byID[r.entry]);
    }
  }

  lemma {:induction false} AuditFitsExactly(before: seq<Record>, f: Folded, r: Record)
    requires Tells(before, f) && Once(before)
    ensures AuditAccepted(f, r) <==>
              && (exists s :: s in before && Starts(s, r.entry) && s.kind == ManualRelay && r.auditor != None && r.auditor != s.operator)
              && (forall s | s in before :: !Audits(s, r.entry)) && r.evidenceIsDigest
  {
    if r.entry in f.byID {
      var s := StartOf(before, f, r.entry);
      UnauditedExactly(before, f.byID[r.entry]);
    }
  }

  /** A record is accepted exactly when it fits the records before it. */
  lemma {:induction false} AcceptedFits(before: seq<Record>, f: Folded, r: Record)
    requires Tells(before, f) && Once(before)
    ensures RecordAccepted(f, r) <==> Fits(before, r)
  {
    StartFitsExactly(f, r);
    StopFitsExactly(before, f, r);
    AuditFitsExactly(before, f, r);
  }

  // ---------------------------------------------------------------- one record more

  lemma {:induction false} OnceMore(before: seq<Record>, r: Record)
    requires Once(before) && Fits(before, r)
    ensures Once(before + [r])
  {
    assert forall s :: s in before + [r] <==> s in before || s == r;
  }

  lemma {:induction false} TellsMore(before: seq<Record>, f: Folded, r: Record)
    requires Tells(before, f) && Once(before) && RecordAccepted(f, r)
    ensures Tells(before + [r], FoldRecord(f, r))
  {
    var g, all := FoldRecord(f, r), before + [r];
    assert forall s :: s in all <==> s in before || s == r;
    forall id | id in g.byID ensures g.byID[id].id == id && TellsOf(all, g.byID[id]) {
      if id == r.entry { TouchedTells(before, f, r); } else { UntouchedTells(before, r, f.byID[id]); }
    }
  }

  lemma {:induction false} UntouchedTells(before: seq<Record>, r: Record, x: Interval)
    requires TellsOf(before, x) && r.entry != x.id
    ensures TellsOf(before + [r], x)
  {
    assert forall s :: s in before + [r] <==> s in before || s == r;
  }

  lemma {:induction false} NewTells(before: seq<Record>, f: Folded, r: Record)
    requires Tells(before, f) && r.op == Start && StartAccepted(f, r)
    ensures TellsOf(before + [r], Interval(r.entry, r.arm, r.operator.value, r.kind, r.relay, r.at, None, None))
  {
    assert forall s :: s in before + [r] <==> s in before || s == r;
  }

  lemma {:induction false} EndedTells(before: seq<Record>, x: Interval, r: Record)
    requires TellsOf(before, x) && Stops(r, x.id) && x.end.None?
    ensures TellsOf(before + [r], x.(end := Some(r.at)))
  {
    assert forall s :: s in before + [r] <==> s in before || s == r;
    OpenExactly(before, x);
  }

  lemma {:induction false} AuditedTells(before: seq<Record>, x: Interval, r: Record)
    requires TellsOf(before, x) && Once(before) && Audits(r, x.id) && x.audit.None? && r.auditor.Some?
    ensures TellsOf(before + [r], x.(audit := Some(Audit(r.auditor.value, r.at))))
  {
    assert forall s :: s in before + [r] <==> s in before || s == r;
    UnauditedExactly(before, x);
  }

  lemma {:induction false} TouchedTells(before: seq<Record>, f: Folded, r: Record)
    requires Tells(before, f) && Once(before) && RecordAccepted(f, r)
    ensures r.entry in FoldRecord(f, r).byID && FoldRecord(f, r).byID[r.entry].id == r.entry
    ensures TellsOf(before + [r], FoldRecord(f, r).byID[r.entry])
  {
    match r.op
    case Start => NewTells(before, f, r);
    case Stop => EndedTells(before, f.byID[r.entry], r);
    case AuditOp => AuditedTells(before, f.byID[r.entry], r);
    case UnknownOp(_) =>
  }

  /** A log whose records all fit is folded into what they tell; the first record that does not fit is refused. */
  lemma {:induction false} FoldTells(records: seq<Record>)
    ensures AllAccepted(records) <==> AllFit(records)
    ensures AllFit(records) ==> Tells(records, FoldRecords(records)) && Once(records)
  {
    if records != [] {
      var before, r := records[..|records| - 1], records[|records| - 1];
      FoldTells(before);
      assert before + [r] == records;
      FitBefore(records);
      if AllFit(before) {
        AcceptedFits(before, FoldRecords(before), r);
        if Fits(before, r) {
          OnceMore(before, r);
          TellsMore(before, FoldRecords(before), r);
        }
      }
    }
  }

  lemma {:induction false} FitBefore(records: seq<Record>)
    requires records != []
    ensures AllFit(records) <==> AllFit(records[..|records| - 1]) && Fits(records[..|records| - 1], records[|records| - 1])
  {
    var before := records[..|records| - 1];
    forall n | 0 <= n < |before| ensures before[..n] == records[..n] && before[n] == records[n] {}
    if AllFit(records) {
      forall n | 0 <= n < |before| ensures Fits(before[..n], before[n]) { assert Fits(records[..n], records[n]); }
    }
    if AllFit(before) && Fits(before, records[|records| - 1]) {
      forall n | 0 <= n < |records| ensures Fits(records[..n], records[n]) {
        if n < |before| { assert Fits(before[..n], before[n]); }
      }
    }
  }

  // ---------------------------------------------------------------- the ledger

  ghost predicate ByStart(ledger: seq<Interval>) {
    forall i, j | 0 <= i < j < |ledger| :: ledger[i].start <= ledger[j].start
  }

  lemma {:induction false} InsertByStartKeeps(x: Interval, s: seq<Interval>)
    requires ByStart(s)
    ensures ByStart(InsertByStart(x, s))
  {
    if s != [] && s[|s| - 1].start > x.start {
      var n := |s| - 1;
      InsertByStartKeeps(x, s[..n]);
      InsertByStartMultiset(x, s[..n]);
      var r := InsertByStart(x, s[..n]);
      forall i | 0 <= i < |r| ensures r[i].start <= s[n].start {
        assert r[i] in multiset(r);
        assert r[i] == x || r[i] in s[..n];
      }
    }
  }

  lemma {:induction false} SortByStartSorts(s: seq<Interval>)
    ensures ByStart(SortByStart(s))
  {
    if s != [] {
      SortByStartSorts(s[..|s| - 1]);
      InsertByStartKeeps(s[|s| - 1], SortByStart(s[..|s| - 1]));
    }
  }

  lemma {:induction false} LedgerHas(records: seq<Record>, x: Interval)
    ensures x in LedgerOf(records) <==> x.id in FoldRecords(records).byID && FoldRecords(records).byID[x.id] == x
  {
    FoldIsSound(records);
    var f := FoldRecords(records);
    var listed := Listed(f, f.order);
    SortByStartMultiset(listed);
    assert x in LedgerOf(records) <==> x in multiset(LedgerOf(records));
    assert x in listed <==> x in multiset(listed);
    if x in listed {
      var i :| 0 <= i < |listed| && listed[i] == x;
      assert SoundInterval(f.order[i], f.byID[f.order[i]]);
    }
    if x.id in f.byID && f.byID[x.id] == x {
      var i :| 0 <= i < |f.order| && f.order[i] == x.id;
      assert listed[i] == x;
    }
  }

  /**
    The ledger of a log whose records all fit: by start, one interval to each started entry,
    each what its own start, stop and audit say.
   */
  lemma {:induction false} LedgerTells(records: seq<Record>)
    requires AllFit(records)
    ensures ByStart(LedgerOf(records))
    ensures forall x | x in LedgerOf(records) :: TellsOf(records, x)
    ensures forall x, y | x in LedgerOf(records) && y in LedgerOf(records) && x.id == y.id :: x == y
    ensures forall s | s in records :: exists x :: x in LedgerOf(records) && x.id == s.entry
  {
    var f := FoldRecords(records);
    FoldTells(records);
    FoldIsSound(records);
    SortByStartSorts(Listed(f, f.order));
    forall x ensures x in LedgerOf(records) <==> x.id in f.byID && f.byID[x.id] == x { LedgerHas(records, x); }
    forall s | s in records ensures exists x :: x in LedgerOf(records) && x.id == s.entry {
      assert f.byID[s.entry] in LedgerOf(records);
    }
  }

  // ---------------------------------------------------------------- what is accepted

  /** One of the two has ended before the other starts. */
  ghost predicate Apart(x: Interval, y: Interval) {
    || (exists t :: x.end == Some(t) && t <= y.start)
    || (exists t :: y.end == Some(t) && t <= x.start)
  }

  ghost predicate AllApart(ledger: seq<Interval>) {
    forall x, y | x in ledger && y in ledger && x.id != y.id :: Apart(x, y)
  }

  ghost predicate SameOperator(ledger: seq<Interval>) {
    forall x, y | x in ledger && y in ledger :: x.operator == y.operator
  }

  lemma {:induction false} CountedOnceDistinct(s: seq<Interval>)
    requires forall x :: multiset(s)[x] <= 1
    ensures Distinct(s)
  {
    if s != [] {
      assert s == [s[0]] + s[1..];
      assert multiset(s) == multiset{s[0]} + multiset(s[1..]);
      forall x ensures multiset(s[1..])[x] <= 1 { assert multiset(s)[x] >= multiset(s[1..])[x]; }
      CountedOnceDistinct(s[1..]);
      forall j | 0 < j < |s| ensures s[0] != s[j] {
        assert s[j] in multiset(s[1..]) && multiset(s)[s[0]] == multiset(s[1..])[s[0]] + 1;
      }
    }
  }

  lemma {:induction false} PermutedDistinct(a: seq<Interval>, b: seq<Interval>)
    requires Distinct(a) && multiset(a) == multiset(b)
    ensures Distinct(b)
  {
    DistinctMultiset(a);
    CountedOnceDistinct(b);
  }

  lemma {:induction false} LedgerDistinct(records: seq<Record>)
    ensures forall i, j | 0 <= i < j < |LedgerOf(records)| :: LedgerOf(records)[i].id != LedgerOf(records)[j].id
  {
    var f := FoldRecords(records);
    FoldIsSound(records);
    var listed := Listed(f, f.order);
    forall i | 0 <= i < |listed| ensures listed[i].id == f.order[i] { assert SoundInterval(f.order[i], f.byID[f.order[i]]); }
    SortByStartMultiset(listed);
    PermutedDistinct(listed, LedgerOf(records));
    forall i, j | 0 <= i < j < |LedgerOf(records)| ensures LedgerOf(records)[i].id != LedgerOf(records)[j].id {
      LedgerHas(records, LedgerOf(records)[i]);
      LedgerHas(records, LedgerOf(records)[j]);
    }
  }

  lemma FollowsApart(prev: Interval, cur: Interval)
    requires prev.start <= cur.start && SoundInterval(cur.id, cur)
    ensures Apart(prev, cur) <==> Follows(prev, cur)
  {
    if Follows(prev, cur) { assert prev.end == Some(prev.end.value); }
  }

  lemma {:induction false} NoOverlapExactly(records: seq<Record>)
    ensures NoOverlap(LedgerOf(records)) <==> AllApart(LedgerOf(records))
  {
    var ledger, f := LedgerOf(records), FoldRecords(records);
    FoldIsSound(records);
    SortByStartSorts(Listed(f, f.order));
    LedgerIsSound(records);
    LedgerDistinct(records);
    if NoOverlap(ledger) {
      forall x, y | x in ledger && y in ledger && x.id != y.id ensures Apart(x, y) {
        var i, j :| 0 <= i < |ledger| && ledger[i] == x && 0 <= j < |ledger| && ledger[j] == y;
        if i < j { NeighboursSuffice(ledger, i, j); FollowsApart(x, y); } else { NeighboursSuffice(ledger, j, i); FollowsApart(y, x); }
      }
    }
    if AllApart(ledger) {
      forall i | 1 <= i < |ledger| ensures Follows(ledger[i - 1], ledger[i]) {
        assert Apart(ledger[i - 1], ledger[i]);
        FollowsApart(ledger[i - 1], ledger[i]);
      }
    }
  }

  /** A log is accepted exactly when every record fits, no two of its intervals overlap, and one operator performs them all. */
  lemma {:induction false} AcceptedExactly(records: seq<Record>)
    ensures FoldAccepts(records) <==> AllFit(records) && AllApart(LedgerOf(records)) && SameOperator(LedgerOf(records))
  {
    var ledger := LedgerOf(records);
    FoldTells(records);
    NoOverlapExactly(records);
    assert OneOperator(ledger) <==> SameOperator(ledger) by {
      if SameOperator(ledger) {
        forall i | 0 <= i < |ledger| ensures ledger[i].operator == ledger[0].operator { assert ledger[i] in ledger && ledger[0] in ledger; }
      }
    }
  }

  // ---------------------------------------------------------------- time and counts

  /** The kinds that take a person's attention: all but waiting for a provider. */
  lemma {:induction false} TimeByKind(ledger: seq<Interval>, arm: Arm)
    requires forall x | x in ledger :: !x.kind.UnknownKind?
    ensures Time(ledger, arm, false) == TimeOfKind(ledger, arm, UnattendedWait)
    ensures Time(ledger, arm, true) ==
              TimeOfKind(ledger, arm, ActiveSupervision) + TimeOfKind(ledger, arm, TaskPreparation) + TimeOfKind(ledger, arm, ReviewingOutput)
              + TimeOfKind(ledger, arm, AuthorityIntervened) + TimeOfKind(ledger, arm, ManualRelay) + TimeOfKind(ledger, arm, RecoveryWorkaround)
              + TimeOfKind(ledger, arm, FinalAcceptanceMerge)
  {
    if ledger != [] {
      assert ledger[|ledger| - 1] in ledger;
      TimeByKind(ledger[..|ledger| - 1], arm);
    }
  }

  /** What one interval adds to the time of its kind: from its start to its end, nothing while it is open. */
  ghost function Lasts(x: Interval): int {
    match x.end
    case None => 0
    case Some(t) => t - x.start
  }

  /** A kind's time is what the arm's intervals of that kind last, each counted once wherever it stands. */
  lemma {:induction false} TimeOfKindAdds(before: seq<Interval>, x: Interval, after: seq<Interval>, arm: Arm, kind: Kind)
    ensures TimeOfKind(before + [x] + after, arm, kind) ==
              TimeOfKind(before, arm, kind) + (if x.arm == arm && x.kind == kind then Lasts(x) else 0) + TimeOfKind(after, arm, kind)
    ensures TimeOfKind([], arm, kind) == 0
  {
    var whole := before + [x] + after;
    if after == [] {
      assert whole[..|whole| - 1] == before;
    } else {
      assert whole[..|whole| - 1] == before + [x] + after[..|after| - 1];
      TimeOfKindAdds(before, x, after[..|after| - 1], arm, kind);
    }
  }

  /** The positions of the arm's intervals that a count is of. */
  ghost function Places(ledger: seq<Interval>, arm: Arm, c: Count): set<nat> {
    set i: nat | i < |ledger| && ledger[i].arm == arm && Counted(ledger[i], c)
  }

  ghost predicate Counted(x: Interval, c: Count) {
    match c
    case Entries => true
    case Open => x.end == None
    case Authority => x.kind == AuthorityIntervened && x.end != None
    case FinalMerges => x.kind == FinalAcceptanceMerge && x.end != None
    case Recoveries => x.kind == RecoveryWorkaround && x.end != None
    case Relays => x.kind == ManualRelay && x.end != None
    case AuditedRelays => x.kind == ManualRelay && x.end != None && x.audit != None
    case SelfReportedRelays => x.kind == ManualRelay && x.end != None && x.audit == None
  }

  lemma PlacesNext(ledger: seq<Interval>, arm: Arm, c: Count)
    requires ledger != []
    ensures var n := |ledger| - 1;
            Places(ledger, arm, c) == Places(ledger[..n], arm, c) + if ledger[n].arm == arm && Counted(ledger[n], c) then {n} else {}
  {
    assert forall i | 0 <= i < |ledger| - 1 :: ledger[..|ledger| - 1][i] == ledger[i];
  }

  lemma CountedExactly(x: Interval, c: Count)
    ensures CountedAs(x, c) <==> Counted(x, c)
  {
  }

  /** Each count is how many of the arm's intervals it is of. */
  lemma {:induction false} CountsExactly(ledger: seq<Interval>, arm: Arm, c: Count)
    ensures CountOf(ledger, arm, c) == |Places(ledger, arm, c)|
  {
    if ledger != [] {
      CountsExactly(ledger[..|ledger| - 1], arm, c);
      PlacesNext(ledger, arm, c);
      CountedExactly(ledger[|ledger| - 1], c);
    }
  }

  ghost function RelayPlaces(ledger: seq<Interval>, arm: Arm, relay: RelayKind): set<nat> {
    set i | i in Places(ledger, arm, Relays) && i < |ledger| && ledger[i].relay == relay
  }

  lemma RelayPlacesNext(ledger: seq<Interval>, arm: Arm, relay: RelayKind)
    requires ledger != []
    ensures var n := |ledger| - 1;
            RelayPlaces(ledger, arm, relay) ==
              RelayPlaces(ledger[..n], arm, relay) + if ledger[n].arm == arm && Counted(ledger[n], Relays) && ledger[n].relay == relay then {n} else {}
  {
    PlacesNext(ledger, arm, Relays);
    assert forall i | 0 <= i < |ledger| - 1 :: ledger[..|ledger| - 1][i] == ledger[i];
  }

  /** Relays of one kind among those counted. */
  lemma {:induction false} RelaysExactly(ledger: seq<Interval>, arm: Arm, relay: RelayKind)
    ensures RelaysOfKind(ledger, arm, relay) == |RelayPlaces(ledger, arm, relay)|
  {
    if ledger != [] {
      RelaysExactly(ledger[..|ledger| - 1], arm, relay);
      RelayPlacesNext(ledger, arm, relay);
      CountedExactly(ledger[|ledger| - 1], Relays);
    }
  }

  /** The operator shown is the one of the arm's last interval. */
  lemma {:induction false} OperatorExactly(ledger: seq<Interval>, arm: Arm, operator: Id)
    ensures OperatorOf(ledger, arm) == Some(operator) <==>
              exists k :: 0 <= k < |ledger| && ledger[k].arm == arm && ledger[k].operator == operator && forall j | k < j < |ledger| :: ledger[j].arm != arm
  {
    if ledger != [] {
      var before, last := ledger[..|ledger| - 1], ledger[|ledger| - 1];
      OperatorExactly(before, arm, operator);
      assert forall j | 0 <= j < |before| :: before[j] == ledger[j];
      if last.arm == arm && last.operator == operator { assert ledger[|ledger| - 1] == last; }
    }
  }

  /** How many of the arm's intervals there are of a kind that have ended. */
  ghost function Ended(ledger: seq<Interval>, arm: Arm, kind: Kind): set<nat> {
    set i: nat | i < |ledger| && ledger[i].arm == arm && ledger[i].kind == kind && ledger[i].end != None
  }

  ghost function Unended(ledger: seq<Interval>, arm: Arm): set<nat> {
    set i: nat | i < |ledger| && ledger[i].arm == arm && ledger[i].end == None
  }

  /** What a summary counts, field by field. */
  lemma {:induction false} SummaryCounts(s: Supervision, ledger: seq<Interval>)
    requires s.Accounts(ledger)
    ensures s.authority == |Ended(ledger, s.arm, AuthorityIntervened)|
    ensures s.finalMerges == |Ended(ledger, s.arm, FinalAcceptanceMerge)|
    ensures s.recoveries == |Ended(ledger, s.arm, RecoveryWorkaround)|
    ensures s.relays == |Ended(ledger, s.arm, ManualRelay)|
    ensures s.audited == |set i | i in Ended(ledger, s.arm, ManualRelay) && ledger[i].audit != None|
    ensures s.selfReported == |set i | i in Ended(ledger, s.arm, ManualRelay) && ledger[i].audit == None|
    ensures s.open == |Unended(ledger, s.arm)|
    ensures forall relay :: At(s.relaysByKind, relay) == |set i | i in Ended(ledger, s.arm, ManualRelay) && ledger[i].relay == relay|
  {
    CountsExactly(ledger, s.arm, Authority);
    CountsExactly(ledger, s.arm, FinalMerges);
    CountsExactly(ledger, s.arm, Recoveries);
    CountsExactly(ledger, s.arm, Relays);
    CountsExactly(ledger, s.arm, AuditedRelays);
    CountsExactly(ledger, s.arm, SelfReportedRelays);
    CountsExactly(ledger, s.arm, Open);
    PlacesAre(ledger, s.arm);
    forall relay ensures At(s.relaysByKind, relay) == |set i | i in Ended(ledger, s.arm, ManualRelay) && ledger[i].relay == relay| {
      RelaysExactly(ledger, s.arm, relay);
      assert RelayPlaces(ledger, s.arm, relay) == set i | i in Ended(ledger, s.arm, ManualRelay) && ledger[i].relay == relay;
    }
  }

  lemma PlacesAre(ledger: seq<Interval>, arm: Arm)
    ensures Places(ledger, arm, Authority) == Ended(ledger, arm, AuthorityIntervened)
    ensures Places(ledger, arm, FinalMerges) == Ended(ledger, arm, FinalAcceptanceMerge)
    ensures Places(ledger, arm, Recoveries) == Ended(ledger, arm, RecoveryWorkaround)
    ensures Places(ledger, arm, Relays) == Ended(ledger, arm, ManualRelay)
    ensures Places(ledger, arm, AuditedRelays) == set i | i in Ended(ledger, arm, ManualRelay) && ledger[i].audit != None
    ensures Places(ledger, arm, SelfReportedRelays) == set i | i in Ended(ledger, arm, ManualRelay) && ledger[i].audit == None
    ensures Places(ledger, arm, Open) == Unended(ledger, arm)
  {
  }

  /** What a summary times: attention is all but waiting. */
  lemma {:induction false} SummaryTimes(s: Supervision, ledger: seq<Interval>)
    requires s.Accounts(ledger) && forall x | x in ledger :: !x.kind.UnknownKind?
    ensures forall kind :: At(s.secondsByKind, kind) == TimeOfKind(ledger, s.arm, kind)
    ensures s.unattended == At(s.secondsByKind, UnattendedWait)
    ensures s.active ==
              At(s.secondsByKind, ActiveSupervision) + At(s.secondsByKind, TaskPreparation) + At(s.secondsByKind, ReviewingOutput)
              + At(s.secondsByKind, AuthorityIntervened) + At(s.secondsByKind, ManualRelay) + At(s.secondsByKind, RecoveryWorkaround)
              + At(s.secondsByKind, FinalAcceptanceMerge)
  {
    TimeByKind(ledger, s.arm);
  }

  /** The first start and the last end there are. */
  lemma {:induction false} SummaryBounds(s: Supervision, ledger: seq<Interval>)
    requires s.Accounts(ledger)
    ensures forall t :: s.firstStart == Some(t) <==>
              (exists x :: x in ledger && x.arm == s.arm && x.start == t) && forall x | x in ledger && x.arm == s.arm :: t <= x.start
    ensures forall t :: s.lastEnd == Some(t) <==>
              (exists x :: x in ledger && x.arm == s.arm && x.end == Some(t)) && forall x, e | x in ledger && x.arm == s.arm && x.end == Some(e) :: e <= t
    ensures forall operator :: s.operator == Some(operator) ==> exists x :: x in ledger && x.arm == s.arm && x.operator == operator
  {
    BoundsMean(ledger, s.arm);
    forall operator | s.operator == Some(operator) ensures exists x :: x in ledger && x.arm == s.arm && x.operator == operator {
      OperatorExactly(ledger, s.arm, operator);
    }
  }
}
