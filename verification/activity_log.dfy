/** The append-only activity log, and how each record moves the ledger. */
module ActivityLog {
  import opened Ids
  import opened Activity
  import opened LedgerLaws

  const MAX_LOG_RECORDS := 20000

  // ---------------------------------------------------------------- how a record moves the ledger

  function StopOne(x: Interval, id: EntryId, at: int): Interval {
    if x.id == id then x.(end := Some(at)) else x
  }

  function Stopped(s: seq<Interval>, id: EntryId, at: int): (r: seq<Interval>) {
    seq(|s|, i requires 0 <= i < |s| => StopOne(s[i], id, at))
  }

  lemma {:induction false} StoppingKeepsInsertion(x: Interval, s: seq<Interval>, id: EntryId, at: int)
    ensures InsertByStart(StopOne(x, id, at), Stopped(s, id, at)) == Stopped(InsertByStart(x, s), id, at)
  {
    if s != [] {
      var n := |s| - 1;
      assert Stopped(s, id, at)[..n] == Stopped(s[..n], id, at);
      if s[n].start > x.start { StoppingKeepsInsertion(x, s[..n], id, at); }
    }
  }

  lemma {:induction false} StoppingKeepsOrder(s: seq<Interval>, id: EntryId, at: int)
    ensures SortByStart(Stopped(s, id, at)) == Stopped(SortByStart(s), id, at)
  {
    if s != [] {
      var n := |s| - 1;
      assert Stopped(s, id, at)[..n] == Stopped(s[..n], id, at);
      StoppingKeepsOrder(s[..n], id, at);
      StoppingKeepsInsertion(s[n], SortByStart(s[..n]), id, at);
    }
  }

  /** An accepted stop record ends one interval and leaves the rest of the ledger where it was. */
  lemma {:induction false} StopEndsOne(records: seq<Record>, r: Record)
    requires r.op.Stop? && RecordAccepted(FoldRecords(records), r)
    ensures LedgerOf(records + [r]) == Stopped(LedgerOf(records), r.entry, r.at)
  {
    var f, g := FoldRecords(records), FoldRecords(records + [r]);
    assert (records + [r])[..|records|] == records;
    FoldIsSound(records);
    FoldIsSound(records + [r]);
    forall i | 0 <= i < |f.order| ensures g.byID[f.order[i]] == StopOne(f.byID[f.order[i]], r.entry, r.at) {
      assert SoundInterval(f.order[i], f.byID[f.order[i]]);
    }
    assert Listed(g, g.order) == Stopped(Listed(f, f.order), r.entry, r.at);
    StoppingKeepsOrder(Listed(f, f.order), r.entry, r.at);
  }

  function OpenedBy(r: Record): Interval
    requires r.operator.Some?
  {
    Interval(r.entry, r.arm, r.operator.value, r.kind, r.relay, r.at, None, None)
  }

  lemma {:induction false} InsertedEarlierIsFollowed(x: Interval, s: seq<Interval>) returns (i: nat)
    requires s != [] && s[|s| - 1].start > x.start
    ensures i + 1 < |InsertByStart(x, s)| && InsertByStart(x, s)[i] == x
  {
    var n := |s| - 1;
    if s[..n] != [] && s[..n][n - 1].start > x.start {
      i := InsertedEarlierIsFollowed(x, s[..n]);
    } else {
      i := n;
    }
  }

  lemma {:induction false} StartInserts(records: seq<Record>, r: Record)
    requires r.op.Start? && RecordAccepted(FoldRecords(records), r)
    ensures LedgerOf(records + [r]) == InsertByStart(OpenedBy(r), LedgerOf(records))
  {
    var f, g := FoldRecords(records), FoldRecords(records + [r]);
    assert (records + [r])[..|records|] == records;
    FoldIsSound(records);
    FoldIsSound(records + [r]);
    var listed := Listed(f, f.order);
    assert Listed(g, g.order) == listed + [OpenedBy(r)];
    assert (listed + [OpenedBy(r)])[..|listed|] == listed;
  }

  lemma {:induction false} AdjacentFollow(ledger: seq<Interval>, i: nat)
    requires NoOverlap(ledger) && 1 <= i < |ledger|
    ensures Follows(ledger[i - 1], ledger[i])
  {
  }

  /** A start that leaves the log consistent opens an interval at the very end of the ledger, so time is only ever appended to. */
  lemma {:induction false} StartAppends(records: seq<Record>, r: Record)
    requires r.op.Start? && FoldAccepts(records + [r])
    ensures LedgerOf(records + [r]) == LedgerOf(records) + [OpenedBy(r)]
  {
    assert (records + [r])[..|records|] == records;
    StartInserts(records, r);
    var ledger := LedgerOf(records);
    if ledger != [] && ledger[|ledger| - 1].start > r.at {
      var i := InsertedEarlierIsFollowed(OpenedBy(r), ledger);
      AdjacentFollow(LedgerOf(records + [r]), i + 1);
    }
  }

  ghost predicate NoneOpen(ledger: seq<Interval>) {
    forall x | x in ledger :: x.end.Some?
  }

  /** The stop of the open interval leaves none open. */
  lemma {:induction false} StopLeavesNoneOpen(records: seq<Record>, r: Record, i: nat)
    requires r.op.Stop? && FoldAccepts(records) && RecordAccepted(FoldRecords(records), r)
    requires i < |LedgerOf(records)| && LedgerOf(records)[i].end.None? && LedgerOf(records)[i].id == r.entry
    ensures NoneOpen(LedgerOf(records + [r]))
  {
    AcceptedIsOneStream(records);
    StopEndsOne(records, r);
  }

  // ---------------------------------------------------------------- the log

  datatype Written = Appended | Unreadable | Refused

  datatype StopResult = Ended(id: EntryId) | NothingOpen | SeveralOpen | NotEnded(why: Written)

  function StartRecord(arm: Arm, operator: Option<Id>, kind: Kind, relay: RelayKind, at: int): Record {
    Record(SCHEMA_VERSION, Start, EntryId(arm, operator, kind, relay, at), at, arm, operator, kind, relay, None, false)
  }

  /** Only a start record names an arm; the absent one is no known arm. */
  function StopRecord(id: EntryId, at: int): Record {
    Record(SCHEMA_VERSION, Stop, id, at, UnknownArm(0), None, UnknownKind(0), NoRelay, None, false)
  }

  function AuditRecord(id: EntryId, auditor: Option<Id>, digest: bool, at: int): Record {
    Record(SCHEMA_VERSION, AuditOp, id, at, UnknownArm(0), None, UnknownKind(0), NoRelay, auditor, digest)
  }

  class Log {
    var records: seq<Record>

    constructor ()
      ensures records == [] && Valid()
    {
      records := [];
    }

    /** What a log holds that only `Append` has written to. */
    predicate Valid()
      reads this
    {
      FoldAccepts(records)
    }

    /** The write happens exactly when the log is short enough to read and the longer log is consistent. */
    method Append(r: Record) returns (w: Written)
      modifies this
      ensures old(|records|) > MAX_LOG_RECORDS <==> w.Unreadable?
      ensures w.Appended? <==> old(|records|) <= MAX_LOG_RECORDS && FoldAccepts(old(records) + [r])
      ensures records == if w.Appended? then old(records) + [r] else old(records)
      ensures old(Valid()) || w.Appended? ==> Valid()
    {
      if |records| > MAX_LOG_RECORDS { return Unreadable; }
      var _, ok := Fold(records + [r]);
      if !ok { return Refused; }
      records := records + [r];
      return Appended;
    }

    method StartInterval(arm: Arm, operator: Option<Id>, kind: Kind, relay: RelayKind, at: int) returns (id: EntryId, w: Written)
      modifies this
      ensures id == EntryId(arm, operator, kind, relay, at)
      ensures old(Valid()) ==> Valid()
      ensures !w.Appended? ==> records == old(records)
      ensures w.Appended? ==>
                && operator.Some?
                && LedgerOf(records) == old(LedgerOf(records)) + [Interval(id, arm, operator.value, kind, relay, at, None, None)]
      ensures w.Appended? ==> NoneOpen(old(LedgerOf(records)))
    {
      id := EntryId(arm, operator, kind, relay, at);
      var r := StartRecord(arm, operator, kind, relay, at);
      w := Append(r);
      if w.Appended? {
        StartAppends(old(records), r);
        assert (old(records) + [r])[..|old(records)|] == old(records);
        OnlyLastOpen(records);
      }
    }

    /**
      With no entry named, the open interval is ended. "Several intervals are open" is never
      the answer, whatever the file holds, since a log with two open intervals is refused on reading.
     */
    method StopInterval(named: Option<EntryId>, at: int) returns (s: StopResult)
      modifies this
      ensures old(Valid()) ==> Valid()
      ensures !s.SeveralOpen?
      ensures !s.Ended? ==> records == old(records)
      ensures s.NothingOpen? <==>
                && named.None? && old(|records|) <= MAX_LOG_RECORDS
                && old(FoldAccepts(records)) && NoneOpen(old(LedgerOf(records)))
      ensures s.Ended? ==>
                && records == old(records) + [StopRecord(s.id, at)] && (named.Some? ==> s.id == named.value)
                && LedgerOf(records) == Stopped(old(LedgerOf(records)), s.id, at)
      ensures s.Ended? && named.None? ==> NoneOpen(LedgerOf(records))
    {
      var id := named;
      ghost var open := 0;
      if id.None? {
        if |records| > MAX_LOG_RECORDS { return NotEnded(Unreadable); }
        var ledger, ok := Fold(records);
        if !ok { return NotEnded(Refused); }
        AcceptedIsOneStream(records);
        for i := 0 to |ledger|
          invariant id.None? <==> NoneOpen(ledger[..i])
          invariant id.Some? ==> open < i && ledger[open].end.None? && id.value == ledger[open].id
        {
          if ledger[i].end.Some? { continue; }
          if id.Some? { return SeveralOpen; }
          id := Some(ledger[i].id);
          open := i;
        }
        assert ledger[..|ledger|] == ledger;
        if id.None? { return NothingOpen; }
      }
      ghost var before := records;
      var r := StopRecord(id.value, at);
      var w := Append(r);
      if !w.Appended? { return NotEnded(w); }
      assert (before + [r])[..|before|] == before;
      StopEndsOne(before, r);
      if named.None? { StopLeavesNoneOpen(before, r, open); }
      return Ended(id.value);
    }

    method AuditRelay(id: EntryId, auditor: Option<Id>, digest: bool, at: int) returns (w: Written)
      modifies this
      ensures old(Valid()) ==> Valid()
      ensures records == if w.Appended? then old(records) + [AuditRecord(id, auditor, digest, at)] else old(records)
      ensures w.Appended? ==> auditor.Some?
    {
      w := Append(AuditRecord(id, auditor, digest, at));
      assert w.Appended? ==> records[..|records| - 1] == old(records);
    }
  }

  lemma {:induction false} OnlyLastOpen(records: seq<Record>)
    requires FoldAccepts(records)
    ensures LedgerOf(records) != [] ==> NoneOpen(LedgerOf(records)[..|LedgerOf(records)| - 1])
  {
    AcceptedIsOneStream(records);
  }
}
