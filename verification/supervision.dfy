/** One arm's attention time and intervention counts, from the ledger alone. */
module Supervisions {
  import opened Ids
  import opened Activity
  import opened LedgerLaws

  /** What is counted of an arm's intervals. */
  datatype Count = Entries | Open | Authority | FinalMerges | Recoveries | Relays | AuditedRelays | SelfReportedRelays

  predicate CountedAs(x: Interval, c: Count) {
    match c
    case Entries => true
    case Open => x.end.None?
    case Authority => x.end.Some? && x.kind.AuthorityIntervened?
    case FinalMerges => x.end.Some? && x.kind.FinalAcceptanceMerge?
    case Recoveries => x.end.Some? && x.kind.RecoveryWorkaround?
    case Relays => x.end.Some? && x.kind.ManualRelay?
    case AuditedRelays => x.end.Some? && x.kind.ManualRelay? && x.audit.Some?
    case SelfReportedRelays => x.end.Some? && x.kind.ManualRelay? && x.audit.None?
  }

  function CountOf(ledger: seq<Interval>, arm: Arm, c: Count): nat {
    if ledger == [] then 0
    else
      var last := ledger[|ledger| - 1];
      CountOf(ledger[..|ledger| - 1], arm, c) + if last.arm == arm && CountedAs(last, c) then 1 else 0
  }

  function TimeOfKind(ledger: seq<Interval>, arm: Arm, kind: Kind): int {
    if ledger == [] then 0
    else
      var last := ledger[|ledger| - 1];
      TimeOfKind(ledger[..|ledger| - 1], arm, kind) + if last.arm == arm && last.kind == kind then Duration(last) else 0
  }

  function RelaysOfKind(ledger: seq<Interval>, arm: Arm, relay: RelayKind): nat {
    if ledger == [] then 0
    else
      var last := ledger[|ledger| - 1];
      RelaysOfKind(ledger[..|ledger| - 1], arm, relay)
      + if last.arm == arm && CountedAs(last, Relays) && last.relay == relay then 1 else 0
  }

  function OperatorOf(ledger: seq<Interval>, arm: Arm): Option<Id> {
    if ledger == [] then None
    else if ledger[|ledger| - 1].arm == arm then Some(ledger[|ledger| - 1].operator)
    else OperatorOf(ledger[..|ledger| - 1], arm)
  }

  function FirstStart(ledger: seq<Interval>, arm: Arm): Option<int> {
    if ledger == [] then None
    else
      var last, first := ledger[|ledger| - 1], FirstStart(ledger[..|ledger| - 1], arm);
      if last.arm == arm && (first.None? || last.start < first.value) then Some(last.start) else first
  }

  function LastEnd(ledger: seq<Interval>, arm: Arm): Option<int> {
    if ledger == [] then None
    else
      var last, end := ledger[|ledger| - 1], LastEnd(ledger[..|ledger| - 1], arm);
      if last.arm == arm && last.end.Some? && (end.None? || last.end.value > end.value) then last.end else end
  }

  /** The arm's intervals all lie between its first start and its last end. */
  lemma {:induction false} BoundsMean(ledger: seq<Interval>, arm: Arm)
    ensures forall x | x in ledger && x.arm == arm :: FirstStart(ledger, arm).Some? && FirstStart(ledger, arm).value <= x.start
    ensures forall x | x in ledger && x.arm == arm && x.end.Some? :: LastEnd(ledger, arm).Some? && x.end.value <= LastEnd(ledger, arm).value
    ensures FirstStart(ledger, arm).Some? ==> exists x :: x in ledger && x.arm == arm && x.start == FirstStart(ledger, arm).value
    ensures LastEnd(ledger, arm).Some? ==> exists x :: x in ledger && x.arm == arm && x.end == LastEnd(ledger, arm)
  {
    if ledger != [] {
      BoundsMean(ledger[..|ledger| - 1], arm);
      assert forall x :: x in ledger <==> x in ledger[..|ledger| - 1] || x == ledger[|ledger| - 1];
    }
  }

  datatype Basis = SelfReported | PartiallyAudited | Audited

  function At<K>(m: map<K, int>, k: K): int {
    if k in m then m[k] else 0
  }

  class Supervision {
    const arm: Arm
    var operator: Option<Id>
    var active: int
    var unattended: int
    var secondsByKind: map<Kind, int>
    var authority: nat
    var finalMerges: nat
    var recoveries: nat
    var nonAuthority: nat
    var relays: nat
    var relaysByKind: map<RelayKind, int>
    var audited: nat
    var selfReported: nat
    var basis: Basis
    var open: nat
    var firstStart: Option<int>
    var lastEnd: Option<int>

    constructor (arm: Arm)
      ensures this.arm == arm && nonAuthority == 0 && basis == SelfReported
      ensures Accounts([])
    {
      this.arm := arm;
      operator, firstStart, lastEnd := None, None, None;
      active, unattended, secondsByKind, relaysByKind := 0, 0, map[], map[];
      authority, finalMerges, recoveries, nonAuthority, relays, audited, selfReported, open := 0, 0, 0, 0, 0, 0, 0, 0;
      basis := SelfReported;
    }

    ghost predicate CountsOf(ledger: seq<Interval>)
      reads this`authority, this`finalMerges, this`recoveries, this`relays, this`relaysByKind, this`audited, this`selfReported, this`open
    {
      && authority == CountOf(ledger, arm, Authority)
      && finalMerges == CountOf(ledger, arm, FinalMerges)
      && recoveries == CountOf(ledger, arm, Recoveries)
      && relays == CountOf(ledger, arm, Relays)
      && audited == CountOf(ledger, arm, AuditedRelays)
      && selfReported == CountOf(ledger, arm, SelfReportedRelays)
      && open == CountOf(ledger, arm, Open)
      && forall relay :: At(relaysByKind, relay) == RelaysOfKind(ledger, arm, relay)
    }

    ghost predicate TimesOf(ledger: seq<Interval>)
      reads this`active, this`unattended, this`secondsByKind
    {
      && active == Time(ledger, arm, true)
      && unattended == Time(ledger, arm, false)
      && forall kind :: At(secondsByKind, kind) == TimeOfKind(ledger, arm, kind)
    }

    ghost predicate BoundsOf(ledger: seq<Interval>)
      reads this`operator, this`firstStart, this`lastEnd
    {
      operator == OperatorOf(ledger, arm) && firstStart == FirstStart(ledger, arm) && lastEnd == LastEnd(ledger, arm)
    }

    ghost predicate Accounts(ledger: seq<Interval>)
      reads this
    {
      CountsOf(ledger) && TimesOf(ledger) && BoundsOf(ledger)
    }

    /** `countIntervention`, for an interval of this arm that has ended. */
    method CountIntervention(x: Interval, ghost before: seq<Interval>)
      requires x.arm == arm && x.end.Some? && CountsOf(before)
      modifies this`authority, this`finalMerges, this`recoveries, this`relays, this`relaysByKind, this`audited, this`selfReported
      ensures CountsOf(before + [x])
    {
      assert (before + [x])[..|before|] == before;
      match x.kind {
        case AuthorityIntervened => authority := authority + 1;
        case FinalAcceptanceMerge => finalMerges := finalMerges + 1;
        case RecoveryWorkaround => recoveries := recoveries + 1;
        case ManualRelay =>
          relays := relays + 1;
          relaysByKind := relaysByKind[x.relay := At(relaysByKind, x.relay) + 1];
          if x.audit.Some? { audited := audited + 1; } else { selfReported := selfReported + 1; }
        case _ =>
      }
    }

    method Bound(x: Interval, ghost before: seq<Interval>)
      requires x.arm == arm && BoundsOf(before)
      modifies this`operator, this`firstStart, this`lastEnd
      ensures BoundsOf(before + [x])
    {
      assert (before + [x])[..|before|] == before;
      operator := Some(x.operator);
      if firstStart.None? || x.start < firstStart.value { firstStart := Some(x.start); }
      if x.end.Some? && (lastEnd.None? || x.end.value > lastEnd.value) { lastEnd := x.end; }
    }

    method CountOpen(x: Interval, ghost before: seq<Interval>)
      requires x.arm == arm && x.end.None? && CountsOf(before)
      modifies this`open
      ensures CountsOf(before + [x])
    {
      assert (before + [x])[..|before|] == before;
      open := open + 1;
    }

    method AddTime(x: Interval, ghost before: seq<Interval>)
      requires x.arm == arm && TimesOf(before)
      modifies this`active, this`unattended, this`secondsByKind
      ensures TimesOf(before + [x])
    {
      assert (before + [x])[..|before|] == before;
      if x.end.None? { return; }
      var time := Duration(x);
      secondsByKind := secondsByKind[x.kind := At(secondsByKind, x.kind) + time];
      if CountsAsHumanAttention(x.kind) { active := active + time; } else { unattended := unattended + time; }
    }

    method CountOne(x: Interval, ghost before: seq<Interval>)
      requires x.arm == arm && CountsOf(before)
      modifies this`authority, this`finalMerges, this`recoveries, this`relays, this`relaysByKind, this`audited, this`selfReported, this`open
      ensures CountsOf(before + [x])
    {
      if x.end.None? { CountOpen(x, before); } else { CountIntervention(x, before); }
    }

    lemma {:induction false} OtherArmIgnored(x: Interval, before: seq<Interval>)
      requires x.arm != arm && Accounts(before)
      ensures Accounts(before + [x])
    {
      assert (before + [x])[..|before|] == before;
    }

    /** One interval of the loop over the ledger. */
    method Add(x: Interval, ghost before: seq<Interval>)
      requires Accounts(before)
      modifies this`operator, this`firstStart, this`lastEnd, this`active, this`unattended, this`secondsByKind
      modifies this`authority, this`finalMerges, this`recoveries, this`relays, this`relaysByKind, this`audited, this`selfReported, this`open
      ensures Accounts(before + [x])
    {
      if x.arm != arm {
        OtherArmIgnored(x, before);
        return;
      }
      Bound(x, before);
      AddTime(x, before);
      CountOne(x, before);
    }

    /** What is derived from the counts at the end. */
    method Conclude()
      requires relays == audited + selfReported && basis.SelfReported?
      modifies this`nonAuthority, this`basis
      ensures nonAuthority == relays + recoveries
      ensures basis.Audited? <==> relays > 0 && selfReported == 0
      ensures basis.SelfReported? <==> audited == 0
    {
      nonAuthority := relays + recoveries;
      if relays > 0 && audited == relays {
        basis := Audited;
      } else if audited > 0 {
        basis := PartiallyAudited;
      }
    }
  }

  lemma {:induction false} RelaysPartition(ledger: seq<Interval>, arm: Arm)
    ensures CountOf(ledger, arm, Relays) == CountOf(ledger, arm, AuditedRelays) + CountOf(ledger, arm, SelfReportedRelays)
  {
    if ledger != [] { RelaysPartition(ledger[..|ledger| - 1], arm); }
  }

  lemma {:induction false} EntriesAreThere(ledger: seq<Interval>, arm: Arm)
    ensures CountOf(ledger, arm, Entries) > 0 <==> exists x :: x in ledger && x.arm == arm
  {
    if ledger != [] {
      EntriesAreThere(ledger[..|ledger| - 1], arm);
      assert forall x :: x in ledger <==> x in ledger[..|ledger| - 1] || x == ledger[|ledger| - 1];
    }
  }

  /**
    `Summarize`. The basis says "audited" only when there is a relay and every relay carries an
    audit, and "self-reported" exactly when none does.
   */
  method Summarize(ledger: seq<Interval>, arm: Arm) returns (s: Supervision, ok: bool)
    ensures fresh(s) && s.arm == arm && s.Accounts(ledger)
    ensures ok <==> exists x :: x in ledger && x.arm == arm
    ensures s.relays == s.audited + s.selfReported
    ensures s.nonAuthority == s.relays + s.recoveries
    ensures s.basis.Audited? <==> s.relays > 0 && s.selfReported == 0
    ensures s.basis.SelfReported? <==> s.audited == 0
  {
    s, ok := Account(ledger, arm);
    EntriesAreThere(ledger, arm);
    RelaysPartition(ledger, arm);
    s.Conclude();
  }

  /** The loop over the ledger. */
  method Account(ledger: seq<Interval>, arm: Arm) returns (s: Supervision, ok: bool)
    ensures fresh(s) && s.arm == arm && s.basis == SelfReported && s.Accounts(ledger)
    ensures ok <==> CountOf(ledger, arm, Entries) > 0
  {
    s := new Supervision(arm);
    ok := false;
    ghost var done: seq<Interval> := [];
    for i := 0 to |ledger|
      invariant done == ledger[..i]
      invariant fresh(s) && s.arm == arm && s.basis == SelfReported
      invariant s.Accounts(done)
      invariant ok <==> CountOf(done, arm, Entries) > 0
    {
      assert (done + [ledger[i]])[..|done|] == done;
      if ledger[i].arm == arm { ok := true; }
      s.Add(ledger[i], done);
      done := done + [ledger[i]];
    }
    assert done == ledger;
  }
}
