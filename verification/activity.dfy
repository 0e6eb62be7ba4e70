/** The operator's activity log: folding records into a ledger of intervals, or reporting what is wrong. */
module Activity {
  import opened Ids

  const SCHEMA_VERSION: nat := 1
  /** The zero time, which no record may carry. */
  const ZERO_TIME: int := 0

  datatype Arm = Planned | Direct | UnknownArm(name: Id)

  datatype Kind =
    | ActiveSupervision | TaskPreparation | ReviewingOutput | AuthorityIntervened
    | ManualRelay | RecoveryWorkaround | UnattendedWait | FinalAcceptanceMerge
    | UnknownKind(name: Id)

  predicate CountsAsHumanAttention(kind: Kind) {
    !kind.UnattendedWait?
  }

  datatype RelayKind = NoRelay | RelayPrompt | RelayContext | RelayFinding | RelayStatus | UnknownRelay(name: Id)

  /** The digest of an entry's content, as a free constructor. */
  datatype EntryId = EntryId(arm: Arm, operator: Option<Id>, kind: Kind, relay: RelayKind, start: int)

  datatype Op = Start | Stop | AuditOp | UnknownOp(name: Id)

  datatype Audit = Audit(auditor: Id, at: int)

  datatype Record = Record(
    schemaVersion: nat,
    op: Op,
    entry: EntryId,
    at: int,
    arm: Arm,
    operator: Option<Id>,
    kind: Kind,
    relay: RelayKind,
    auditor: Option<Id>,
    evidenceIsDigest: bool)

  datatype Interval = Interval(
    id: EntryId, arm: Arm, operator: Id, kind: Kind, relay: RelayKind, start: int, end: Option<int>, audit: Option<Audit>)

  /** The intervals so far, by entry, and the order they were started in. */
  datatype Folded = Folded(byID: map<EntryId, Interval>, order: seq<EntryId>)

  predicate StartAccepted(f: Folded, r: Record) {
    && !r.arm.UnknownArm?
    && r.operator.Some?
    && !r.kind.UnknownKind?
    && (r.kind.ManualRelay? ==> !r.relay.NoRelay? && !r.relay.UnknownRelay?)
    && (!r.kind.ManualRelay? ==> r.relay.NoRelay?)
    && r.entry == EntryId(r.arm, r.operator, r.kind, r.relay, r.at)
    && r.entry !in f.byID
  }

  predicate StopAccepted(f: Folded, r: Record) {
    r.entry in f.byID && f.byID[r.entry].end.None? && f.byID[r.entry].start < r.at
  }

  predicate AuditAccepted(f: Folded, r: Record) {
    && r.entry in f.byID
    && f.byID[r.entry].kind.ManualRelay?
    && f.byID[r.entry].audit.None?
    && r.auditor.Some? && r.auditor.value != f.byID[r.entry].operator
    && r.evidenceIsDigest
  }

  predicate RecordAccepted(f: Folded, r: Record) {
    && r.schemaVersion == SCHEMA_VERSION
    && r.at != ZERO_TIME
    && match r.op
       case Start => StartAccepted(f, r)
       case Stop => StopAccepted(f, r)
       case AuditOp => AuditAccepted(f, r)
       case UnknownOp(_) => false
  }

  /** A refused record leaves the intervals as they are. */
  function FoldRecord(f: Folded, r: Record): Folded {
    if !RecordAccepted(f, r) then f
    else match r.op
      case Start =>
        Folded(f.byID[r.entry := Interval(r.entry, r.arm, r.operator.value, r.kind, r.relay, r.at, None, None)], f.order + [r.entry])
      case Stop => f.(byID := f.byID[r.entry := f.byID[r.entry].(end := Some(r.at))])
      case AuditOp => f.(byID := f.byID[r.entry := f.byID[r.entry].(audit := Some(Audit(r.auditor.value, r.at)))])
  }

  const NOTHING := Folded(map[], [])

  function FoldRecords(records: seq<Record>): Folded {
    if records == [] then NOTHING
    else FoldRecord(FoldRecords(records[..|records| - 1]), records[|records| - 1])
  }

  predicate AllAccepted(records: seq<Record>) {
    records == [] ||
      (AllAccepted(records[..|records| - 1]) && RecordAccepted(FoldRecords(records[..|records| - 1]), records[|records| - 1]))
  }

  // ---------------------------------------------------------------- the ledger

  /** The intervals in the order they were started in. */
  function Listed(f: Folded, order: seq<EntryId>): seq<Interval>
    requires forall id | id in order :: id in f.byID
  {
    seq(|order|, i requires 0 <= i < |order| => f.byID[order[i]])
  }

  function InsertByStart(x: Interval, sorted: seq<Interval>): seq<Interval> {
    if sorted == [] || sorted[|sorted| - 1].start <= x.start then sorted + [x]
    else InsertByStart(x, sorted[..|sorted| - 1]) + [sorted[|sorted| - 1]]
  }

  /** `sort.SliceStable` by start. */
  function SortByStart(intervals: seq<Interval>): seq<Interval> {
    if intervals == [] then []
    else InsertByStart(intervals[|intervals| - 1], SortByStart(intervals[..|intervals| - 1]))
  }

  /** `cur` begins no sooner than `prev` has ended; nothing follows an interval without an end. */
  predicate Follows(prev: Interval, cur: Interval) {
    prev.end.Some? && prev.end.value <= cur.start
  }

  predicate NoOverlap(sorted: seq<Interval>) {
    forall i | 1 <= i < |sorted| :: Follows(sorted[i - 1], sorted[i])
  }

  predicate OneOperator(intervals: seq<Interval>) {
    forall i | 0 <= i < |intervals| :: intervals[i].operator == intervals[0].operator
  }

  // ---------------------------------------------------------------- what folding maintains

  ghost predicate SoundInterval(id: EntryId, x: Interval) {
    && x.id == id && !x.arm.UnknownArm? && !x.kind.UnknownKind?
    && (x.end.Some? ==> x.start < x.end.value)
    && (x.audit.Some? ==> x.kind.ManualRelay? && x.audit.value.auditor != x.operator)
  }

  ghost predicate SoundFold(f: Folded) {
    && Distinct(f.order)
    && (forall id :: id in f.byID <==> id in f.order)
    && forall id | id in f.byID :: SoundInterval(id, f.byID[id])
  }

  lemma RecordKeepsSound(f: Folded, r: Record)
    requires SoundFold(f)
    ensures SoundFold(FoldRecord(f, r))
  {
  }

  lemma {:induction false} FoldIsSound(records: seq<Record>)
    ensures SoundFold(FoldRecords(records))
  {
    if records != [] {
      FoldIsSound(records[..|records| - 1]);
      RecordKeepsSound(FoldRecords(records[..|records| - 1]), records[|records| - 1]);
    }
  }

  /** The ledger of a list of records: its intervals ordered by start. */
  function LedgerOf(records: seq<Record>): seq<Interval> {
    FoldIsSound(records);
    var f := FoldRecords(records);
    SortByStart(Listed(f, f.order))
  }

  /** A log `Fold` reports nothing about. */
  predicate FoldAccepts(records: seq<Record>) {
    AllAccepted(records) && NoOverlap(LedgerOf(records)) && OneOperator(LedgerOf(records))
  }

  /** The intervals one fold is filling in, updated record by record. */
  class Folding {
    var byID: map<EntryId, Interval>
    var order: seq<EntryId>

    constructor ()
      ensures byID == map[] && order == []
    {
      byID, order := map[], [];
    }

    ghost function So(): Folded
      reads this
    {
      Folded(byID, order)
    }

    method FoldStart(r: Record) returns (ok: bool)
      requires r.op.Start? && r.schemaVersion == SCHEMA_VERSION && r.at != ZERO_TIME
      modifies this
      ensures ok <==> RecordAccepted(old(So()), r)
      ensures So() == FoldRecord(old(So()), r)
    {
      if r.arm.UnknownArm? { return false; }
      if r.operator.None? { return false; }
      if r.kind.UnknownKind? { return false; }
      if r.kind.ManualRelay? && (r.relay.NoRelay? || r.relay.UnknownRelay?) { return false; }
      if !r.kind.ManualRelay? && !r.relay.NoRelay? { return false; }
      if r.entry != EntryId(r.arm, r.operator, r.kind, r.relay, r.at) { return false; }
      if r.entry in byID { return false; }
      byID := byID[r.entry := Interval(r.entry, r.arm, r.operator.value, r.kind, r.relay, r.at, None, None)];
      order := order + [r.entry];
      return true;
    }

    method FoldStop(r: Record) returns (ok: bool)
      requires r.op.Stop? && r.schemaVersion == SCHEMA_VERSION && r.at != ZERO_TIME
      modifies this
      ensures ok <==> RecordAccepted(old(So()), r)
      ensures So() == FoldRecord(old(So()), r)
    {
      if r.entry !in byID { return false; }
      var x := byID[r.entry];
      if x.end.Some? { return false; }
      if r.at <= x.start { return false; }
      byID := byID[r.entry := x.(end := Some(r.at))];
      return true;
    }

    method FoldAudit(r: Record) returns (ok: bool)
      requires r.op.AuditOp? && r.schemaVersion == SCHEMA_VERSION && r.at != ZERO_TIME
      modifies this
      ensures ok <==> RecordAccepted(old(So()), r)
      ensures So() == FoldRecord(old(So()), r)
    {
      if r.entry !in byID { return false; }
      var x := byID[r.entry];
      if !x.kind.ManualRelay? { return false; }
      if x.audit.Some? { return false; }
      if r.auditor.None? { return false; }
      if r.auditor.value == x.operator { return false; }
      if !r.evidenceIsDigest { return false; }
      byID := byID[r.entry := x.(audit := Some(Audit(r.auditor.value, r.at)))];
      return true;
    }

    method FoldOne(r: Record) returns (ok: bool)
      modifies this
      ensures ok <==> RecordAccepted(old(So()), r)
      ensures So() == FoldRecord(old(So()), r)
    {
      if r.schemaVersion != SCHEMA_VERSION { return false; }
      if r.at == ZERO_TIME { return false; }
      match r.op
      case Start => ok := FoldStart(r);
      case Stop => ok := FoldStop(r);
      case AuditOp => ok := FoldAudit(r);
      case UnknownOp(_) => ok := false;
    }
  }

  /** `overlaps`, on intervals sorted by start: whether there is anything to report. */
  method Overlaps(sorted: seq<Interval>) returns (found: bool)
    ensures found <==> !NoOverlap(sorted)
  {
    found := false;
    var i := 1;
    while i < |sorted|
      invariant 1 <= i && (|sorted| > 0 ==> i <= |sorted|)
      invariant found <==> exists k | 1 <= k < i && k < |sorted| :: !Follows(sorted[k - 1], sorted[k])
    {
      var prev, cur := sorted[i - 1], sorted[i];
      if prev.end.None? || cur.start < prev.end.value { found := true; }
      i := i + 1;
    }
  }

  /** `operatorMismatch`. */
  method OperatorMismatch(intervals: seq<Interval>) returns (found: bool)
    ensures found <==> !OneOperator(intervals)
  {
    found := false;
    if |intervals| == 0 { return; }
    for i := 1 to |intervals|
      invariant found <==> exists k | 0 <= k < i :: intervals[k].operator != intervals[0].operator
    {
      if intervals[i].operator != intervals[0].operator { found := true; }
    }
  }

  /** `Fold`: the ledger, and whether there was nothing to report. */
  method Fold(records: seq<Record>) returns (ledger: seq<Interval>, ok: bool)
    ensures ledger == LedgerOf(records)
    ensures ok <==> FoldAccepts(records)
  {
    var folding := new Folding();
    var problems := false;
    for n := 0 to |records|
      invariant folding.So() == FoldRecords(records[..n])
      invariant problems <==> !AllAccepted(records[..n])
    {
      assert records[..n + 1][..n] == records[..n];
      var fine := folding.FoldOne(records[n]);
      if !fine { problems := true; }
    }
    assert records[..|records|] == records;
    FoldIsSound(records);
    ledger := [];
    for i := 0 to |folding.order|
      invariant folding.So() == FoldRecords(records)
      invariant ledger == Listed(folding.So(), folding.order)[..i]
    {
      ledger := ledger + [folding.byID[folding.order[i]]];
    }
    assert ledger == Listed(folding.So(), folding.order);
    ledger := SortByStart(ledger);
    var overlap := Overlaps(ledger);
    var mismatch := OperatorMismatch(ledger);
    ok := !problems && !overlap && !mismatch;
  }
}
