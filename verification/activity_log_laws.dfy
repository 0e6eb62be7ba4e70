/** Which further records an activity log takes, and that it can outgrow what it can read back. */
module LogLaws {
  import opened Ids
  import opened Activity
  import opened LedgerLaws
  import opened ActivityLog

  /** The ledger lists exactly what folding left under each entry. */
  lemma {:induction false} LedgerLists(records: seq<Record>, x: Interval)
    ensures x in LedgerOf(records) <==> x.id in FoldRecords(records).byID && FoldRecords(records).byID[x.id] == x
  {
    var f := FoldRecords(records);
    FoldIsSound(records);
    var listed := Listed(f, f.order);
    SortByStartMultiset(listed);
    assert x in LedgerOf(records) <==> x in multiset(LedgerOf(records));
    if x in listed {
      var i :| 0 <= i < |listed| && listed[i] == x;
      assert SoundInterval(f.order[i], x);
    }
    if x.id in f.byID && f.byID[x.id] == x {
      assert x.id in f.order;
      var i :| 0 <= i < |f.order| && f.order[i] == x.id;
      assert listed[i] == x;
    }
  }

  lemma {:induction false} Extended(records: seq<Record>, r: Record)
    ensures FoldRecords(records + [r]) == FoldRecord(FoldRecords(records), r)
    ensures AllAccepted(records + [r]) <==> AllAccepted(records) && RecordAccepted(FoldRecords(records), r)
  {
    assert (records + [r])[..|records|] == records;
  }

  /** Ending the open interval of a consistent ledger leaves it consistent. */
  lemma {:induction false} StoppedStaysApart(ledger: seq<Interval>, id: EntryId, at: int)
    requires NoOverlap(ledger) && forall x | x in ledger && x.id == id :: x.end.None?
    ensures NoOverlap(Stopped(ledger, id, at))
  {
    var after := Stopped(ledger, id, at);
    forall i | 1 <= i < |after| ensures Follows(after[i - 1], after[i]) {
      assert Follows(ledger[i - 1], ledger[i]);
      assert ledger[i - 1] in ledger;
    }
  }

  /** A consistent log takes a stop exactly when the entry is open and started earlier. */
  lemma {:induction false} StopTakenExactly(records: seq<Record>, r: Record)
    requires FoldAccepts(records) && r.op.Stop?
    ensures FoldAccepts(records + [r]) <==> RecordAccepted(FoldRecords(records), r)
  {
    Extended(records, r);
    if RecordAccepted(FoldRecords(records), r) {
      var ledger := LedgerOf(records);
      StopEndsOne(records, r);
      forall x | x in ledger && x.id == r.entry ensures x.end.None? { LedgerLists(records, x); }
      StoppedStaysApart(ledger, r.entry, r.at);
    }
  }

  /** Nothing is open, the last interval has ended by then, and the operator is the log's. */
  ghost predicate RoomFor(ledger: seq<Interval>, r: Record) {
    && NoneOpen(ledger)
    && (ledger != [] ==> r.operator == Some(ledger[0].operator) && ledger[|ledger| - 1].end.Some? && ledger[|ledger| - 1].end.value <= r.at)
  }

  /** A consistent log takes a start exactly when the record is well formed and there is room for it after all there is. */
  lemma {:induction false} StartTakenExactly(records: seq<Record>, r: Record)
    requires FoldAccepts(records) && r.op.Start?
    ensures FoldAccepts(records + [r]) <==> RecordAccepted(FoldRecords(records), r) && RoomFor(LedgerOf(records), r)
  {
    Extended(records, r);
    var ledger, after := LedgerOf(records), LedgerOf(records + [r]);
    if FoldAccepts(records + [r]) {
      StartAppends(records, r);
      AcceptedIsOneStream(records + [r]);
      assert forall i | 0 <= i < |ledger| :: after[i] == ledger[i];
      if ledger != [] {
        AdjacentFollow(after, |ledger|);
        assert after[|ledger|].operator == after[0].operator;
      }
    } else if RecordAccepted(FoldRecords(records), r) && RoomFor(ledger, r) {
      StartInserts(records, r);
      LedgerIsSound(records);
      RoomKeeps(ledger, r);
    }
  }

  lemma {:induction false} RoomKeeps(ledger: seq<Interval>, r: Record)
    requires NoOverlap(ledger) && OneOperator(ledger) && RoomFor(ledger, r) && r.operator.Some?
    requires forall x | x in ledger :: SoundInterval(x.id, x)
    ensures NoOverlap(InsertByStart(OpenedBy(r), ledger)) && OneOperator(InsertByStart(OpenedBy(r), ledger))
  {
    if ledger != [] {
      var last := ledger[|ledger| - 1];
      assert SoundInterval(last.id, last);
      var after := InsertByStart(OpenedBy(r), ledger);
      assert after == ledger + [OpenedBy(r)];
      forall i | 1 <= i < |after| ensures Follows(after[i - 1], after[i]) {
        if i < |ledger| { assert Follows(ledger[i - 1], ledger[i]); }
      }
      forall i | 0 <= i < |after| ensures after[i].operator == after[0].operator {
        if i < |ledger| { assert ledger[i].operator == ledger[0].operator; }
      }
    }
  }

  // ---------------------------------------------------------------- a log as long as one likes

  function Entry(at: int): EntryId {
    EntryId(Planned, Some(0), ActiveSupervision, NoRelay, at)
  }

  /** One operator starts an interval at every odd time and ends it at the next. */
  function Alternating(n: nat): (records: seq<Record>)
    ensures |records| == n
  {
    if n == 0 then []
    else Alternating(n - 1) + [if n % 2 == 1 then StartRecord(Planned, Some(0), ActiveSupervision, NoRelay, n) else StopRecord(Entry(n - 1), n)]
  }

  ghost predicate Paced(records: seq<Record>, n: nat) {
    && FoldAccepts(records)
    && (forall id | id in FoldRecords(records).byID :: id.start <= n)
    && (forall x | x in LedgerOf(records) :: x.operator == 0 && (x.end.Some? ==> x.end.value <= n))
    && (if n % 2 == 0 then NoneOpen(LedgerOf(records))
        else Entry(n) in FoldRecords(records).byID && FoldRecords(records).byID[Entry(n)].end.None? && FoldRecords(records).byID[Entry(n)].start == n)
  }

  lemma {:induction false} StartPaced(records: seq<Record>, n: nat)
    requires Paced(records, n) && n % 2 == 0
    ensures Paced(records + [StartRecord(Planned, Some(0), ActiveSupervision, NoRelay, n + 1)], n + 1)
  {
    var r := StartRecord(Planned, Some(0), ActiveSupervision, NoRelay, n + 1);
    var ledger := LedgerOf(records);
    assert RecordAccepted(FoldRecords(records), r);
    RoomNext(ledger, r, n);
    StartTakenExactly(records, r);
    StartAppends(records, r);
    Extended(records, r);
  }

  lemma {:induction false} RoomNext(ledger: seq<Interval>, r: Record, n: nat)
    requires NoneOpen(ledger) && r.operator == Some(0) && n <= r.at
    requires forall x | x in ledger :: x.operator == 0 && (x.end.Some? ==> x.end.value <= n)
    ensures RoomFor(ledger, r)
  {
    if ledger != [] { assert ledger[0] in ledger && ledger[|ledger| - 1] in ledger; }
  }

  lemma {:induction false} StopPaced(records: seq<Record>, n: nat)
    requires Paced(records, n) && n % 2 == 1
    ensures Paced(records + [StopRecord(Entry(n), n + 1)], n + 1)
  {
    var r := StopRecord(Entry(n), n + 1);
    StopDue(FoldRecords(records), n);
    StopTakenExactly(records, r);
    StopEndsOne(records, r);
    StopLeavesNone(records, r);
    Extended(records, r);
    StoppedPaced(LedgerOf(records), r.entry, n);
  }

  /** The stop is accepted, and enters nothing new. */
  lemma StopDue(f: Folded, n: nat)
    requires Entry(n) in f.byID && f.byID[Entry(n)].end.None? && f.byID[Entry(n)].start == n
    ensures RecordAccepted(f, StopRecord(Entry(n), n + 1))
    ensures FoldRecord(f, StopRecord(Entry(n), n + 1)).byID.Keys == f.byID.Keys
  {
  }

  lemma {:induction false} StopLeavesNone(records: seq<Record>, r: Record)
    requires FoldAccepts(records) && r.op.Stop? && RecordAccepted(FoldRecords(records), r)
    ensures NoneOpen(LedgerOf(records + [r]))
  {
    var ledger, open := LedgerOf(records), FoldRecords(records).byID[r.entry];
    FoldIsSound(records);
    assert SoundInterval(r.entry, open);
    LedgerLists(records, open);
    var i :| 0 <= i < |ledger| && ledger[i] == open;
    StopLeavesNoneOpen(records, r, i);
  }

  lemma {:induction false} StoppedPaced(ledger: seq<Interval>, id: EntryId, n: nat)
    requires forall x | x in ledger :: x.operator == 0 && (x.end.Some? ==> x.end.value <= n)
    ensures forall x | x in Stopped(ledger, id, n + 1) :: x.operator == 0 && (x.end.Some? ==> x.end.value <= n + 1)
  {
    forall x | x in Stopped(ledger, id, n + 1) ensures x.operator == 0 && (x.end.Some? ==> x.end.value <= n + 1) {
      var k :| 0 <= k < |ledger| && x == StopOne(ledger[k], id, n + 1);
      assert ledger[k] in ledger;
    }
  }

  lemma NothingPaced()
    ensures Paced(Alternating(0), 0)
  {
  }

  lemma OneMorePaced(n: nat)
    requires Paced(Alternating(n), n)
    ensures Paced(Alternating(n + 1), n + 1)
  {
    if n % 2 == 0 {
      assert Alternating(n + 1) == Alternating(n) + [StartRecord(Planned, Some(0), ActiveSupervision, NoRelay, n + 1)];
      StartPaced(Alternating(n), n);
    } else {
      assert Alternating(n + 1) == Alternating(n) + [StopRecord(Entry(n), n + 1)];
      StopPaced(Alternating(n), n);
    }
  }

  /** There is a consistent log of every length. */
  lemma {:induction false} AlternatingPaced(n: nat)
    ensures Paced(Alternating(n), n)
  {
    if n == 0 {
      NothingPaced();
    } else {
      AlternatingPaced(n - 1);
      OneMorePaced(n - 1);
    }
  }

  /** A log that still reads takes one record more than can be read back, and is then never read again. */
  lemma OutgrowsReading()
    ensures exists records, r :: |records| == MAX_LOG_RECORDS && FoldAccepts(records) && FoldAccepts(records + [r])
  {
    AlternatingPaced(MAX_LOG_RECORDS);
    AlternatingPaced(MAX_LOG_RECORDS + 1);
    var next := Alternating(MAX_LOG_RECORDS + 1);
    var r := next[MAX_LOG_RECORDS];
    assert next == Alternating(MAX_LOG_RECORDS) + [r];
  }
}
