/** The privilege ratchet: what a plan revision may not take back, and what that guarantees over whole chains of revisions. */
module Ratchet {
  import opened Ids
  import opened Graphs
  import opened Vocabulary
  import opened Plans
  import opened Reachability
  import opened StageGraphs

  datatype Violation =
    | EscapesToGate(stage: Id)
    | GateStatesNothing(stage: Id)
    | ChangesRole(stage: Id)
    | LowersTrust(stage: Id)
    | DropsIndependence(stage: Id)
    | WeakensIndependence(stage: Id)
    | GainsSubstitution(stage: Id)
    | DropsPeer(stage: Id, peer: Id)
    | RemovesIndependence(stage: Id)
    | RemovesTrust(stage: Id)

  function PreviousStage(plan: seq<PlanStage>, id: Id): Option<PlanStage> {
    if plan == [] then None
    else if plan[0].id == id then Some(plan[0])
    else PreviousStage(plan[1..], id)
  }

  lemma {:induction false} PreviousStageFinds(plan: seq<PlanStage>, id: Id)
    ensures PreviousStage(plan, id).Some? <==> IsStage(plan, id)
    ensures PreviousStage(plan, id).Some? ==> PreviousStage(plan, id).value in plan && PreviousStage(plan, id).value.id == id
  {
    if plan != [] {
      PreviousStageFinds(plan[1..], id);
      if IsStage(plan[1..], id) {
        var i :| 0 <= i < |plan[1..]| && plan[1..][i].id == id;
        assert plan[i + 1].id == id;
      }
      if plan[0].id != id && IsStage(plan, id) {
        var i :| 0 <= i < |plan| && plan[i].id == id;
        assert plan[1..][i - 1].id == id;
      }
    }
  }

  lemma {:induction false} PreviousStageOf(plan: seq<PlanStage>, i: nat)
    requires DistinctStages(plan) && i < |plan|
    ensures PreviousStage(plan, plan[i].id) == Some(plan[i])
  {
    if i > 0 { PreviousStageOf(plan[1..], i - 1); }
  }

  predicate Remains(plan: seq<PlanStage>, id: Id) {
    PreviousStage(plan, id).Some?
  }

  /** Every peer that is still a stage is still named. */
  predicate CarriesPeers(plan: seq<PlanStage>, replacement: seq<Id>, removed: seq<Id>) {
    forall peer | peer in removed :: Remains(plan, peer) ==> peer in replacement
  }

  /** This stage answers an independence obligation a removed one carried. */
  predicate AnswersIndependence(plan: seq<PlanStage>, stage: PlanStage, before: PlanStage, obligation: Independence) {
    || (obligation.humanSubstitutionPermitted && stage.kind.HumanDecisionGate? && stage.substitutesRole == before.role)
    || (stage.role == before.role && stage.independence.Some?
        && DimensionStrength(stage.independence.value.dimension) >= DimensionStrength(obligation.dimension)
        && CarriesPeers(plan, stage.independence.value.differentFrom, obligation.differentFrom))
  }

  predicate RoleCarriesIndependence(plan: seq<PlanStage>, before: PlanStage, obligation: Independence) {
    exists stage | stage in plan :: AnswersIndependence(plan, stage, before, obligation)
  }

  predicate AnswersTrust(stage: PlanStage, role: Option<Role>, trust: Trust, substitutionPermitted: bool) {
    || (substitutionPermitted && stage.kind.HumanDecisionGate? && stage.substitutesRole == role)
    || (stage.role == role && TrustStrength(stage.trust) >= TrustStrength(trust))
  }

  predicate RoleCarriesTrust(plan: seq<PlanStage>, role: Option<Role>, trust: Trust, substitutionPermitted: bool) {
    exists stage | stage in plan :: AnswersTrust(stage, role, trust, substitutionPermitted)
  }

  predicate PermitsSubstitution(stage: PlanStage) {
    stage.independence.Some? && stage.independence.value.humanSubstitutionPermitted
  }

  /** The named peers a surviving stage stops naming although they remain stages. */
  predicate KeepsPeers(plan: seq<PlanStage>, stage: Independence, before: Independence) {
    CarriesPeers(plan, stage.differentFrom, before.differentFrom)
  }

  /** What a stage present in both revisions must keep. */
  predicate SurvivingHolds(plan: seq<PlanStage>, before: PlanStage, stage: PlanStage) {
    if before.kind.AgentStage? && stage.kind.HumanDecisionGate? then
      PermitsSubstitution(before) && stage.requiredClaims != []
    else
      && (before.kind.AgentStage? && stage.kind.AgentStage? ==> before.role == stage.role)
      && TrustStrength(stage.trust) >= TrustStrength(before.trust)
      && (before.independence.Some? ==>
            && stage.independence.Some?
            && DimensionStrength(stage.independence.value.dimension) >= DimensionStrength(before.independence.value.dimension)
            && (stage.independence.value.humanSubstitutionPermitted ==> before.independence.value.humanSubstitutionPermitted)
            && KeepsPeers(plan, stage.independence.value, before.independence.value))
  }

  /** What must still be carried for a stage the revision removes. */
  predicate RemovedHolds(plan: seq<PlanStage>, before: PlanStage) {
    && (before.independence.Some? ==> RoleCarriesIndependence(plan, before, before.independence.value))
    && (before.kind.AgentStage? && TrustStrength(before.trust) > 0 ==>
          RoleCarriesTrust(plan, before.role, before.trust, PermitsSubstitution(before)))
  }

  /** A revision the ratchet accepts against a baseline. */
  ghost predicate Accepted(plan: seq<PlanStage>, baseline: seq<PlanStage>) {
    && (forall i | 0 <= i < |plan| && PreviousStage(baseline, plan[i].id).Some? ::
          SurvivingHolds(plan, PreviousStage(baseline, plan[i].id).value, plan[i]))
    && (forall i | 0 <= i < |baseline| && !Remains(plan, baseline[i].id) :: RemovedHolds(plan, baseline[i]))
  }

  // ---------------------------------------------------------------- the reasons reported

  /** The first stage under an id. */
  ghost predicate StageUnder(plan: seq<PlanStage>, id: Id, stage: PlanStage) {
    exists i :: 0 <= i < |plan| && plan[i] == stage && stage.id == id && forall j | 0 <= j < i :: plan[j].id != id
  }

  ghost predicate BecomesGate(before: PlanStage, stage: PlanStage) {
    before.kind == AgentStage && stage.kind == HumanDecisionGate
  }

  ghost predicate MayBecomeGate(before: PlanStage) {
    before.independence.Some? && before.independence.value.humanSubstitutionPermitted
  }

  /** What one stage that is in both revisions is reported for. */
  ghost predicate ReportedOf(plan: seq<PlanStage>, before: PlanStage, stage: PlanStage, v: Violation) {
    match v
    case EscapesToGate(id) => id == stage.id && BecomesGate(before, stage) && !MayBecomeGate(before)
    case GateStatesNothing(id) => id == stage.id && BecomesGate(before, stage) && |stage.requiredClaims| == 0
    case ChangesRole(id) => id == stage.id && before.kind == AgentStage && stage.kind == AgentStage && before.role != stage.role
    case LowersTrust(id) => id == stage.id && !BecomesGate(before, stage) && TrustStrength(stage.trust) < TrustStrength(before.trust)
    case DropsIndependence(id) => id == stage.id && !BecomesGate(before, stage) && before.independence.Some? && stage.independence.None?
    case WeakensIndependence(id) =>
      && id == stage.id && !BecomesGate(before, stage) && before.independence.Some? && stage.independence.Some?
      && DimensionStrength(stage.independence.value.dimension) < DimensionStrength(before.independence.value.dimension)
    case GainsSubstitution(id) =>
      && id == stage.id && !BecomesGate(before, stage) && before.independence.Some? && stage.independence.Some?
      && DimensionStrength(stage.independence.value.dimension) >= DimensionStrength(before.independence.value.dimension)
      && !before.independence.value.humanSubstitutionPermitted && stage.independence.value.humanSubstitutionPermitted
    case DropsPeer(id, peer) =>
      && id == stage.id && !BecomesGate(before, stage) && before.independence.Some? && stage.independence.Some?
      && DimensionStrength(stage.independence.value.dimension) >= DimensionStrength(before.independence.value.dimension)
      && (stage.independence.value.humanSubstitutionPermitted ==> before.independence.value.humanSubstitutionPermitted)
      && peer in before.independence.value.differentFrom && peer !in stage.independence.value.differentFrom
      && exists other :: other in plan && other.id == peer
    case RemovesIndependence(_) => false
    case RemovesTrust(_) => false
  }

  /** A person stands in for the removed stage's role, as that stage permitted. */
  ghost predicate StandsIn(before: PlanStage, stage: PlanStage) {
    MayBecomeGate(before) && stage.kind == HumanDecisionGate && stage.substitutesRole == before.role
  }

  /** A stage of the same role that differs at least as strongly, and from every old peer that is still a stage. */
  ghost predicate TakesOver(plan: seq<PlanStage>, before: PlanStage, stage: PlanStage) {
    && before.independence.Some? && stage.role == before.role && stage.independence.Some?
    && DimensionStrength(stage.independence.value.dimension) >= DimensionStrength(before.independence.value.dimension)
    && forall peer | peer in before.independence.value.differentFrom && (exists other :: other in plan && other.id == peer) ::
         peer in stage.independence.value.differentFrom
  }

  /** What a stage that the revision removes is reported for. */
  ghost predicate ReportedGone(plan: seq<PlanStage>, before: PlanStage, v: Violation) {
    match v
    case RemovesIndependence(id) =>
      && id == before.id && before.independence.Some?
      && forall stage | stage in plan :: !StandsIn(before, stage) && !TakesOver(plan, before, stage)
    case RemovesTrust(id) =>
      && id == before.id && before.kind == AgentStage && (before.trust == Protected || before.trust == OperatorTrusted)
      && forall stage | stage in plan ::
           !StandsIn(before, stage) && !(stage.role == before.role && TrustStrength(stage.trust) >= TrustStrength(before.trust))
    case _ => false
  }

  /** Everything a revision is reported for, and nothing else. */
  ghost predicate Reported(plan: seq<PlanStage>, baseline: seq<PlanStage>, v: Violation) {
    || (exists stage, before :: stage in plan && StageUnder(baseline, stage.id, before) && ReportedOf(plan, before, stage, v))
    || (exists before :: before in baseline && (forall stage | stage in plan :: stage.id != before.id) && ReportedGone(plan, before, v))
  }

  lemma {:induction false} StageUnderExactly(plan: seq<PlanStage>, id: Id, stage: PlanStage)
    ensures StageUnder(plan, id, stage) <==> PreviousStage(plan, id) == Some(stage)
  {
    if plan != [] {
      StageUnderExactly(plan[1..], id, stage);
      if StageUnder(plan, id, stage) && plan[0].id != id {
        var i :| 0 <= i < |plan| && plan[i] == stage && stage.id == id && forall j | 0 <= j < i :: plan[j].id != id;
        assert plan[1..][i - 1] == stage;
      }
      if StageUnder(plan[1..], id, stage) && plan[0].id != id {
        var i :| 0 <= i < |plan[1..]| && plan[1..][i] == stage && stage.id == id && forall j | 0 <= j < i :: plan[1..][j].id != id;
        assert plan[i + 1] == stage;
        forall j | 0 <= j < i + 1 ensures plan[j].id != id { if j > 0 { assert plan[1..][j - 1] == plan[j]; } }
      }
    }
  }

  lemma {:induction false} RemainsExactly(plan: seq<PlanStage>, id: Id)
    ensures Remains(plan, id) <==> exists stage :: stage in plan && stage.id == id
  {
    PreviousStageFinds(plan, id);
    if stage :| stage in plan && stage.id == id {
      var i :| 0 <= i < |plan| && plan[i] == stage;
      assert IsStage(plan, id);
    }
  }

  lemma RemovedExactly(plan: seq<PlanStage>, before: PlanStage)
    ensures before.independence.Some? ==>
              (RoleCarriesIndependence(plan, before, before.independence.value) <==>
                 exists stage | stage in plan :: StandsIn(before, stage) || TakesOver(plan, before, stage))
    ensures RoleCarriesTrust(plan, before.role, before.trust, PermitsSubstitution(before)) <==>
              exists stage | stage in plan ::
                StandsIn(before, stage) || (stage.role == before.role && TrustStrength(stage.trust) >= TrustStrength(before.trust))
    ensures TrustStrength(before.trust) > 0 <==> before.trust == Protected || before.trust == OperatorTrusted
  {
    forall peer ensures Remains(plan, peer) <==> exists other :: other in plan && other.id == peer { RemainsExactly(plan, peer); }
    forall stage | before.independence.Some?
      ensures AnswersIndependence(plan, stage, before, before.independence.value) <==> StandsIn(before, stage) || TakesOver(plan, before, stage) {}
    forall stage
      ensures AnswersTrust(stage, before.role, before.trust, PermitsSubstitution(before)) <==>
                StandsIn(before, stage) || (stage.role == before.role && TrustStrength(stage.trust) >= TrustStrength(before.trust)) {}
  }

  /** What the first `n` stages of the revision are reported for, each against the first stage under its id. */
  ghost predicate ReportedSoFar(plan: seq<PlanStage>, baseline: seq<PlanStage>, n: nat, v: Violation)
    requires n <= |plan|
  {
    exists k :: 0 <= k < n && PreviousStage(baseline, plan[k].id).Some? && ReportedOf(plan, PreviousStage(baseline, plan[k].id).value, plan[k], v)
  }

  /** What the removed among the first `n` stages of the baseline are reported for. */
  ghost predicate GoneSoFar(plan: seq<PlanStage>, baseline: seq<PlanStage>, n: nat, v: Violation)
    requires n <= |baseline|
  {
    exists k :: 0 <= k < n && !Remains(plan, baseline[k].id) && ReportedGone(plan, baseline[k], v)
  }

  lemma {:induction false} ReportedExactly(plan: seq<PlanStage>, baseline: seq<PlanStage>, v: Violation)
    ensures Reported(plan, baseline, v) <==> ReportedSoFar(plan, baseline, |plan|, v) || GoneSoFar(plan, baseline, |baseline|, v)
  {
    forall id, stage ensures StageUnder(baseline, id, stage) <==> PreviousStage(baseline, id) == Some(stage) { StageUnderExactly(baseline, id, stage); }
    forall id ensures Remains(plan, id) <==> exists stage :: stage in plan && stage.id == id { RemainsExactly(plan, id); }
  }

  lemma {:induction false} SurvivingUnreported(plan: seq<PlanStage>, before: PlanStage, stage: PlanStage)
    ensures SurvivingHolds(plan, before, stage) <==> forall v :: !ReportedOf(plan, before, stage, v)
  {
    forall id ensures Remains(plan, id) <==> exists other :: other in plan && other.id == id { RemainsExactly(plan, id); }
    if !SurvivingHolds(plan, before, stage) {
      if forall v: Violation | !v.DropsPeer? :: !ReportedOf(plan, before, stage, v) {
        DroppedReported(plan, before, stage);
      } else {
        var v :| ReportedOf(plan, before, stage, v);
      }
    }
  }

  /** A surviving stage that is reported for nothing else has stopped naming a peer that is still a stage. */
  lemma {:induction false} DroppedReported(plan: seq<PlanStage>, before: PlanStage, stage: PlanStage)
    requires !SurvivingHolds(plan, before, stage) && forall v: Violation | !v.DropsPeer? :: !ReportedOf(plan, before, stage, v)
    ensures exists peer :: ReportedOf(plan, before, stage, DropsPeer(stage.id, peer))
  {
    assert !ReportedOf(plan, before, stage, EscapesToGate(stage.id)) && !ReportedOf(plan, before, stage, GateStatesNothing(stage.id));
    assert !ReportedOf(plan, before, stage, ChangesRole(stage.id)) && !ReportedOf(plan, before, stage, LowersTrust(stage.id));
    assert !ReportedOf(plan, before, stage, DropsIndependence(stage.id)) && !ReportedOf(plan, before, stage, WeakensIndependence(stage.id));
    assert !ReportedOf(plan, before, stage, GainsSubstitution(stage.id));
    var peer :| peer in before.independence.value.differentFrom && Remains(plan, peer) && peer !in stage.independence.value.differentFrom;
    RemainsExactly(plan, peer);
    assert ReportedOf(plan, before, stage, DropsPeer(stage.id, peer));
  }

  lemma {:induction false} RemovedUnreported(plan: seq<PlanStage>, before: PlanStage)
    ensures RemovedHolds(plan, before) <==> forall v :: !ReportedGone(plan, before, v)
  {
    RemovedExactly(plan, before);
    if !RemovedHolds(plan, before) {
      assert ReportedGone(plan, before, RemovesIndependence(before.id)) || ReportedGone(plan, before, RemovesTrust(before.id));
    }
  }

  /** The ratchet accepts exactly the revisions that are reported for nothing. */
  lemma {:induction false} AcceptedExactly(plan: seq<PlanStage>, baseline: seq<PlanStage>)
    ensures Accepted(plan, baseline) <==> forall v :: !Reported(plan, baseline, v)
  {
    forall v ensures Reported(plan, baseline, v) <==> ReportedSoFar(plan, baseline, |plan|, v) || GoneSoFar(plan, baseline, |baseline|, v) {
      ReportedExactly(plan, baseline, v);
    }
    forall k | 0 <= k < |plan| && PreviousStage(baseline, plan[k].id).Some?
      ensures SurvivingHolds(plan, PreviousStage(baseline, plan[k].id).value, plan[k]) <==>
                forall v :: !ReportedOf(plan, PreviousStage(baseline, plan[k].id).value, plan[k], v)
    {
      SurvivingUnreported(plan, PreviousStage(baseline, plan[k].id).value, plan[k]);
    }
    forall k | 0 <= k < |baseline| ensures RemovedHolds(plan, baseline[k]) <==> forall v :: !ReportedGone(plan, baseline[k], v) {
      RemovedUnreported(plan, baseline[k]);
    }
    if forall v :: !Reported(plan, baseline, v) {
      assert forall v :: !ReportedSoFar(plan, baseline, |plan|, v) && !GoneSoFar(plan, baseline, |baseline|, v);
      forall k, v | 0 <= k < |plan| && PreviousStage(baseline, plan[k].id).Some?
        ensures !ReportedOf(plan, PreviousStage(baseline, plan[k].id).value, plan[k], v)
      {
        assert !ReportedSoFar(plan, baseline, |plan|, v);
      }
      forall k, v | 0 <= k < |baseline| && !Remains(plan, baseline[k].id) ensures !ReportedGone(plan, baseline[k], v) {
        assert !GoneSoFar(plan, baseline, |baseline|, v);
      }
    }
  }

  /** `revisionPrivilegeViolations`: every violation of the revision is reported, nothing else is, and nothing at all exactly when the ratchet accepts. */
  method RevisionPrivilegeViolations(plan: seq<PlanStage>, baseline: seq<PlanStage>) returns (reasons: seq<Violation>)
    ensures forall v :: v in reasons <==> Reported(plan, baseline, v)
    ensures reasons == [] <==> Accepted(plan, baseline)
  {
    reasons := [];
    for i := 0 to |plan|
      invariant forall v :: v in reasons <==> ReportedSoFar(plan, baseline, i, v)
    {
      var found := PreviousStage(baseline, plan[i].id);
      if found.None? { continue; }
      var more := SurvivingViolations(plan, found.value, plan[i]);
      reasons := reasons + more;
    }
    for i := 0 to |baseline|
      invariant forall v :: v in reasons <==> ReportedSoFar(plan, baseline, |plan|, v) || GoneSoFar(plan, baseline, i, v)
    {
      var before := baseline[i];
      if Remains(plan, before.id) { continue; }
      var more := RemovedViolations(plan, before);
      reasons := reasons + more;
    }
    AcceptedExactly(plan, baseline);
    forall v ensures v in reasons <==> Reported(plan, baseline, v) { ReportedExactly(plan, baseline, v); }
    if reasons != [] { assert reasons[0] in reasons; }
  }

  method RemovedViolations(plan: seq<PlanStage>, before: PlanStage) returns (reasons: seq<Violation>)
    ensures forall v :: v in reasons <==> ReportedGone(plan, before, v)
  {
    RemovedExactly(plan, before);
    reasons := [];
    if before.independence.Some? && !RoleCarriesIndependence(plan, before, before.independence.value) {
      reasons := reasons + [RemovesIndependence(before.id)];
    }
    if before.kind.AgentStage? && TrustStrength(before.trust) > 0 &&
       !RoleCarriesTrust(plan, before.role, before.trust, PermitsSubstitution(before)) {
      reasons := reasons + [RemovesTrust(before.id)];
    }
  }

  method SurvivingViolations(plan: seq<PlanStage>, before: PlanStage, stage: PlanStage) returns (reasons: seq<Violation>)
    ensures forall v :: v in reasons <==> ReportedOf(plan, before, stage, v)
  {
    reasons := [];
    if before.kind.AgentStage? && stage.kind.HumanDecisionGate? {
      if before.independence.None? || !before.independence.value.humanSubstitutionPermitted {
        reasons := reasons + [EscapesToGate(stage.id)];
      }
      if |stage.requiredClaims| == 0 {
        reasons := reasons + [GateStatesNothing(stage.id)];
      }
      return;
    }
    if before.kind.AgentStage? && stage.kind.AgentStage? && before.role != stage.role {
      reasons := reasons + [ChangesRole(stage.id)];
    }
    if TrustStrength(stage.trust) < TrustStrength(before.trust) {
      reasons := reasons + [LowersTrust(stage.id)];
    }
    if before.independence.None? { return; }
    var obligation := before.independence.value;
    if stage.independence.None? {
      reasons := reasons + [DropsIndependence(stage.id)];
    } else if DimensionStrength(stage.independence.value.dimension) < DimensionStrength(obligation.dimension) {
      reasons := reasons + [WeakensIndependence(stage.id)];
    } else if !obligation.humanSubstitutionPermitted && stage.independence.value.humanSubstitutionPermitted {
      reasons := reasons + [GainsSubstitution(stage.id)];
    } else {
      var dropped := DroppedPeers(plan, stage.id, stage.independence.value.differentFrom, obligation.differentFrom);
      reasons := reasons + dropped;
    }
  }

  method DroppedPeers(plan: seq<PlanStage>, id: Id, kept: seq<Id>, named: seq<Id>) returns (reasons: seq<Violation>)
    ensures forall v :: v in reasons <==>
              v.DropsPeer? && v.stage == id && v.peer in named && v.peer !in kept && exists other :: other in plan && other.id == v.peer
  {
    reasons := [];
    for j := 0 to |named|
      invariant forall v :: v in reasons <==>
                  v.DropsPeer? && v.stage == id && v.peer in named[..j] && v.peer !in kept && Remains(plan, v.peer)
    {
      var peer := named[j];
      assert named[..j + 1] == named[..j] + [peer];
      if !Remains(plan, peer) { continue; }
      if peer !in kept {
        reasons := reasons + [DropsPeer(id, peer)];
      }
    }
    assert named[..|named|] == named;
    forall peer ensures Remains(plan, peer) <==> exists other :: other in plan && other.id == peer { RemainsExactly(plan, peer); }
  }

  // ---------------------------------------------------------------- one accepted revision

  /** What validation leaves of a revision, with no permission for a person to stand in. */
  ghost predicate WellFormed(plan: seq<PlanStage>) {
    && DistinctStages(plan)
    && forall i | 0 <= i < |plan| ::
         && ValidKind(plan[i])
         && (plan[i].independence.Some? ==>
               KnownDimension(plan[i].independence.value.dimension) && !plan[i].independence.value.humanSubstitutionPermitted)
  }

  /** The strongest independence dimension a role carries, or -1 when it carries none. */
  function StrongestDimension(plan: seq<PlanStage>, role: Role): (strength: int)
    ensures strength >= -1
  {
    if plan == [] then -1
    else
      var rest := StrongestDimension(plan[..|plan| - 1], role);
      var last := plan[|plan| - 1];
      if last.role == Some(role) && last.independence.Some? && DimensionStrength(last.independence.value.dimension) > rest
      then DimensionStrength(last.independence.value.dimension) else rest
  }

  /** The strongest execution trust a role requires. */
  function StrongestTrust(plan: seq<PlanStage>, role: Role): nat {
    if plan == [] then 0
    else
      var rest := StrongestTrust(plan[..|plan| - 1], role);
      var last := plan[|plan| - 1];
      if last.role == Some(role) && TrustStrength(last.trust) > rest then TrustStrength(last.trust) else rest
  }

  lemma {:induction false} DimensionAttained(plan: seq<PlanStage>, role: Role)
    ensures forall i | 0 <= i < |plan| && plan[i].role == Some(role) && plan[i].independence.Some? ::
              DimensionStrength(plan[i].independence.value.dimension) <= StrongestDimension(plan, role)
    ensures StrongestDimension(plan, role) >= 0 ==>
              exists i :: 0 <= i < |plan| && plan[i].role == Some(role) && plan[i].independence.Some?
                && DimensionStrength(plan[i].independence.value.dimension) == StrongestDimension(plan, role)
  {
    if plan != [] {
      var n := |plan| - 1;
      DimensionAttained(plan[..n], role);
      if StrongestDimension(plan, role) >= 0 && StrongestDimension(plan, role) == StrongestDimension(plan[..n], role) {
        var i :| 0 <= i < n && plan[..n][i].role == Some(role) && plan[..n][i].independence.Some?
                 && DimensionStrength(plan[..n][i].independence.value.dimension) == StrongestDimension(plan[..n], role);
        assert plan[i] == plan[..n][i];
      }
      forall i | 0 <= i < |plan| && plan[i].role == Some(role) && plan[i].independence.Some?
        ensures DimensionStrength(plan[i].independence.value.dimension) <= StrongestDimension(plan, role)
      {
        if i < n { assert plan[i] == plan[..n][i]; }
      }
    }
  }

  lemma {:induction false} TrustAttained(plan: seq<PlanStage>, role: Role)
    ensures forall i | 0 <= i < |plan| && plan[i].role == Some(role) :: TrustStrength(plan[i].trust) <= StrongestTrust(plan, role)
    ensures StrongestTrust(plan, role) > 0 ==>
              exists i :: 0 <= i < |plan| && plan[i].role == Some(role) && TrustStrength(plan[i].trust) == StrongestTrust(plan, role)
  {
    if plan != [] {
      var n := |plan| - 1;
      TrustAttained(plan[..n], role);
      if StrongestTrust(plan, role) > 0 && StrongestTrust(plan, role) == StrongestTrust(plan[..n], role) {
        var i :| 0 <= i < n && plan[..n][i].role == Some(role) && TrustStrength(plan[..n][i].trust) == StrongestTrust(plan[..n], role);
        assert plan[i] == plan[..n][i];
      }
      forall i | 0 <= i < |plan| && plan[i].role == Some(role) ensures TrustStrength(plan[i].trust) <= StrongestTrust(plan, role) {
        if i < n { assert plan[i] == plan[..n][i]; }
      }
    }
  }

  /** A stage of the plan in the same role carries at least this obligation. */
  lemma {:induction false} ObligationCarried(plan: seq<PlanStage>, baseline: seq<PlanStage>, i: nat) returns (k: nat)
    requires WellFormed(plan) && WellFormed(baseline) && Accepted(plan, baseline)
    requires i < |baseline| && baseline[i].independence.Some?
    ensures k < |plan| && plan[k].role == baseline[i].role && plan[k].independence.Some?
    ensures DimensionStrength(plan[k].independence.value.dimension) >= DimensionStrength(baseline[i].independence.value.dimension)
  {
    var before := baseline[i];
    PreviousStageFinds(plan, before.id);
    if Remains(plan, before.id) {
      k :| 0 <= k < |plan| && plan[k].id == before.id;
      PreviousStageOf(baseline, i);
      assert SurvivingHolds(plan, before, plan[k]);
    } else {
      var stage :| stage in plan && AnswersIndependence(plan, stage, before, before.independence.value);
      k :| 0 <= k < |plan| && plan[k] == stage;
    }
  }

  lemma {:induction false} TrustCarried(plan: seq<PlanStage>, baseline: seq<PlanStage>, i: nat) returns (k: nat)
    requires WellFormed(plan) && WellFormed(baseline) && Accepted(plan, baseline)
    requires i < |baseline| && TrustStrength(baseline[i].trust) > 0
    ensures k < |plan| && plan[k].role == baseline[i].role && TrustStrength(plan[k].trust) >= TrustStrength(baseline[i].trust)
  {
    var before := baseline[i];
    PreviousStageFinds(plan, before.id);
    assert ValidKind(before) && before.kind.AgentStage?;
    if Remains(plan, before.id) {
      k :| 0 <= k < |plan| && plan[k].id == before.id;
      PreviousStageOf(baseline, i);
      assert SurvivingHolds(plan, before, plan[k]);
      assert ValidKind(plan[k]);
    } else {
      assert RemovedHolds(plan, before);
      var stage :| stage in plan && AnswersTrust(stage, before.role, before.trust, PermitsSubstitution(before));
      k :| 0 <= k < |plan| && plan[k] == stage;
    }
  }

  lemma {:induction false} RevisionNeverWeakens(plan: seq<PlanStage>, baseline: seq<PlanStage>, role: Role)
    requires WellFormed(plan) && WellFormed(baseline) && Accepted(plan, baseline)
    ensures StrongestDimension(plan, role) >= StrongestDimension(baseline, role)
    ensures StrongestTrust(plan, role) >= StrongestTrust(baseline, role)
  {
    DimensionAttained(plan, role);
    DimensionAttained(baseline, role);
    TrustAttained(plan, role);
    TrustAttained(baseline, role);
    if StrongestDimension(baseline, role) >= 0 {
      var i :| 0 <= i < |baseline| && baseline[i].role == Some(role) && baseline[i].independence.Some?
               && DimensionStrength(baseline[i].independence.value.dimension) == StrongestDimension(baseline, role);
      var k := ObligationCarried(plan, baseline, i);
    }
    if StrongestTrust(baseline, role) > 0 {
      var i :| 0 <= i < |baseline| && baseline[i].role == Some(role) && TrustStrength(baseline[i].trust) == StrongestTrust(baseline, role);
      var k := TrustCarried(plan, baseline, i);
    }
  }

  // ---------------------------------------------------------------- chains of revisions

  ghost predicate AcceptedNext(revisions: seq<seq<PlanStage>>, i: int)
    requires 0 <= i < |revisions| - 1
  {
    Accepted(revisions[i + 1], revisions[i])
  }

  ghost predicate Chain(revisions: seq<seq<PlanStage>>) {
    && (forall i | 0 <= i < |revisions| :: WellFormed(revisions[i]))
    && forall i | 0 <= i < |revisions| - 1 :: AcceptedNext(revisions, i)
  }

  lemma {:induction false} ChainStep(revisions: seq<seq<PlanStage>>, i: nat, role: Role)
    requires Chain(revisions) && i + 1 < |revisions|
    ensures StrongestDimension(revisions[i + 1], role) >= StrongestDimension(revisions[i], role)
    ensures StrongestTrust(revisions[i + 1], role) >= StrongestTrust(revisions[i], role)
  {
    assert AcceptedNext(revisions, i);
    RevisionNeverWeakens(revisions[i + 1], revisions[i], role);
  }

  /** Along every chain, what each role carries never gets weaker. */
  lemma {:induction false} ChainNeverWeakens(revisions: seq<seq<PlanStage>>, i: nat, j: nat, role: Role)
    requires Chain(revisions) && i <= j < |revisions|
    ensures StrongestDimension(revisions[j], role) >= StrongestDimension(revisions[i], role)
    ensures StrongestTrust(revisions[j], role) >= StrongestTrust(revisions[i], role)
    decreases j
  {
    if i < j {
      ChainNeverWeakens(revisions, i, j - 1, role);
      ChainStep(revisions, j - 1, role);
    }
  }

  /** The stage names this peer in its independence obligation. */
  ghost predicate NamesPeer(plan: seq<PlanStage>, id: Id, peer: Id) {
    var stage := PreviousStage(plan, id);
    stage.Some? && stage.value.independence.Some? && peer in stage.value.independence.value.differentFrom
  }

  lemma {:induction false} RevisionKeepsPeer(plan: seq<PlanStage>, baseline: seq<PlanStage>, id: Id, peer: Id)
    requires WellFormed(plan) && WellFormed(baseline) && Accepted(plan, baseline)
    requires IsStage(plan, id) && IsStage(plan, peer) && NamesPeer(baseline, id, peer)
    ensures NamesPeer(plan, id, peer)
  {
    PreviousStageFinds(plan, id);
    PreviousStageFinds(plan, peer);
    PreviousStageFinds(baseline, id);
    var k :| 0 <= k < |plan| && plan[k].id == id;
    PreviousStageOf(plan, k);
    assert SurvivingHolds(plan, PreviousStage(baseline, id).value, plan[k]);
  }

  /** A stage that is in every revision keeps every peer that is in every revision. */
  lemma {:induction false} ChainKeepsPeers(revisions: seq<seq<PlanStage>>, i: nat, j: nat, id: Id, peer: Id)
    requires Chain(revisions) && i <= j < |revisions|
    requires forall k | i <= k <= j :: IsStage(revisions[k], id) && IsStage(revisions[k], peer)
    requires NamesPeer(revisions[i], id, peer)
    ensures NamesPeer(revisions[j], id, peer)
    decreases j
  {
    if i < j {
      ChainKeepsPeers(revisions, i, j - 1, id, peer);
      assert AcceptedNext(revisions, j - 1);
      RevisionKeepsPeer(revisions[j], revisions[j - 1], id, peer);
    }
  }

  // ---------------------------------------------------------------- what the ratchet does not stop

  /** The revision lets a person stand in where the stage of that id, if there was one, did not. */
  ghost predicate GainsPermission(plan: seq<PlanStage>, baseline: seq<PlanStage>, i: nat)
    requires i < |plan|
  {
    var before := PreviousStage(baseline, plan[i].id);
    PermitsSubstitution(plan[i]) && (before.None? || !PermitsSubstitution(before.value))
  }

  /** A stage the baseline did not have, or had without any independence. */
  ghost predicate Unratcheted(baseline: seq<PlanStage>, stage: PlanStage) {
    var before := PreviousStage(baseline, stage.id);
    before.None? || before.value.independence.None?
  }

  /**
    An accepted revision gains a human-substitution permission exactly where a stage that is
    new, or that stated no independence before, permits one.
   */
  lemma {:induction false} PermissionGainedExactly(plan: seq<PlanStage>, baseline: seq<PlanStage>)
    requires Accepted(plan, baseline)
    ensures (exists i :: 0 <= i < |plan| && GainsPermission(plan, baseline, i)) <==>
              (exists i :: 0 <= i < |plan| && PermitsSubstitution(plan[i]) && Unratcheted(baseline, plan[i]))
  {
    if i :| 0 <= i < |plan| && PermitsSubstitution(plan[i]) && Unratcheted(baseline, plan[i]) {
      assert GainsPermission(plan, baseline, i);
    }
    if i :| 0 <= i < |plan| && GainsPermission(plan, baseline, i) {
      if !Unratcheted(baseline, plan[i]) {
        assert SurvivingHolds(plan, PreviousStage(baseline, plan[i].id).value, plan[i]);
      }
    }
  }

  /** Revisions each accepted against the one before, permissions and all. */
  ghost predicate AcceptedChain(revisions: seq<seq<PlanStage>>) {
    forall i | 0 <= i < |revisions| - 1 :: AcceptedNext(revisions, i)
  }

  /** The revision has the stage, and lets a person stand in for it. */
  ghost predicate Permits(plan: seq<PlanStage>, id: Id) {
    PreviousStage(plan, id).Some? && PermitsSubstitution(PreviousStage(plan, id).value)
  }

  /** The permission came with the first revision, with the stage, or with its first independence. */
  ghost predicate Introduced(revisions: seq<seq<PlanStage>>, k: nat, id: Id)
    requires k < |revisions|
  {
    Permits(revisions[k], id) &&
      (k == 0 || PreviousStage(revisions[k - 1], id).None? || PreviousStage(revisions[k - 1], id).value.independence.None?)
  }

  /** Along every chain, a permission held was introduced at one revision and held in each since. */
  lemma {:induction false} PermissionTraced(revisions: seq<seq<PlanStage>>, j: nat, id: Id) returns (k: nat)
    requires AcceptedChain(revisions) && j < |revisions| && Permits(revisions[j], id)
    ensures k <= j && Introduced(revisions, k, id) && forall m | k <= m <= j :: Permits(revisions[m], id)
  {
    if Introduced(revisions, j, id) {
      k := j;
    } else {
      var plan, baseline := revisions[j], revisions[j - 1];
      assert AcceptedNext(revisions, j - 1);
      PreviousStageFinds(plan, id);
      var i :| 0 <= i < |plan| && plan[i] == PreviousStage(plan, id).value;
      assert SurvivingHolds(plan, PreviousStage(baseline, id).value, plan[i]);
      k := PermissionTraced(revisions, j - 1, id);
    }
  }

  function Implementing(id: Id): PlanStage {
    PlanStage(id, AgentStage, Some(Implementer), DefaultExecution, None, [], [], None, Unstated, None, None, None, [], None, None, StageBudget(0, 0, 0))
  }

  function Reviewing(id: Id, peer: Id, permitted: bool): PlanStage {
    PlanStage(id, AgentStage, Some(SecurityReviewer), DefaultExecution, None, [peer], [],
      Some(Independence(VendorFamilyDimension, [peer], permitted)), Protected, None, None, None, [], None, None, StageBudget(0, 0, 0))
  }

  function Reviewed(producer: Id, reviewer: Id, permitted: bool): seq<PlanStage> {
    [Implementing(producer), Reviewing(reviewer, producer, permitted)]
  }

  lemma {:induction false} ReviewedGraph(stages: seq<PlanStage>, producer: Id, reviewer: Id, permitted: bool)
    requires stages == Reviewed(producer, reviewer, permitted) && producer != reviewer
    ensures Acyclic(StageGraph(stages)) && Reaches(StageGraph(stages), reviewer, producer)
  {
    var g := StageGraph(stages);
    StageGraphEntries(stages);
    assert stages[0].id == producer && stages[1].id == reviewer;
    assert g[stages[0].id] == [] && g[stages[1].id] == [producer];
    ReachesEdge(g, reviewer, producer);
    forall a ensures !Reaches(g, a, a) {
      if Reaches(g, a, a) {
        var d := ReachesFirst(g, a, a);
        assert a == reviewer && d == producer;
        if Reaches(g, producer, reviewer) { var e := ReachesFirst(g, producer, reviewer); }
      }
    }
  }

  lemma {:induction false} NoCarriers(stages: seq<PlanStage>)
    requires forall i | 0 <= i < |stages| :: stages[i].acceptanceFeature.None?
    ensures Carriers(stages) == 0
  {
    if stages != [] { NoCarriers(stages[..|stages| - 1]); }
  }

  lemma {:induction false} ReviewedStagesValid(stages: seq<PlanStage>, byID: map<Id, PlanStage>, producer: Id, reviewer: Id, permitted: bool)
    requires stages == Reviewed(producer, reviewer, permitted) && producer != reviewer
    requires IndexesStages(stages, byID) && Reaches(IndexGraph(byID), reviewer, producer)
    ensures ValidStage(stages[0], byID) && ValidStage(stages[1], byID)
  {
    assert byID[stages[0].id] == stages[0] && stages[1].dependsOn == [producer];
    assert ValidPeer(stages[1], byID, producer);
  }

  /** A plan validation's graph laws accept: an implementer and a reviewer independent of it. */
  lemma {:induction false} ReviewedIsValid(stages: seq<PlanStage>, producer: Id, reviewer: Id, permitted: bool)
    requires stages == Reviewed(producer, reviewer, permitted) && producer != reviewer
    ensures ValidStageGraph(stages)
  {
    ReviewedGraph(stages, producer, reviewer, permitted);
    NoCarriers(stages);
    var byID := map[producer := stages[0], reviewer := stages[1]];
    forall a ensures a in byID <==> IsStage(stages, a) {
      if a == producer { assert stages[0].id == a; }
      if a == reviewer { assert stages[1].id == a; }
    }
    IndexedGraph(stages, byID);
    ReviewedStagesValid(stages, byID, producer, reviewer, permitted);
    BothValid(stages, byID);
  }

  lemma {:induction false} BothValid(stages: seq<PlanStage>, byID: map<Id, PlanStage>)
    requires |stages| == 2 && DistinctStages(stages) && IndexesStages(stages, byID) && Acyclic(StageGraph(stages))
    requires ValidStage(stages[0], byID) && ValidStage(stages[1], byID) && Carriers(stages) == 0
    requires stages[0].acceptanceFeature.None? && stages[1].acceptanceFeature.None?
    ensures ValidStageGraph(stages)
  {
    assert forall i | 0 <= i < |stages| :: ValidStage(stages[i], byID);
    assert ValidFeature(stages, StageGraph(stages));
  }

  lemma {:induction false} RenamedReviewerAnswers(plan: seq<PlanStage>, producer: Id, before: Id, after: Id)
    requires plan == Reviewed(producer, after, true)
    ensures RemovedHolds(plan, Reviewing(before, producer, false))
  {
    var removed := Reviewing(before, producer, false);
    assert plan[1] in plan;
    assert AnswersIndependence(plan, plan[1], removed, removed.independence.value);
    assert AnswersTrust(plan[1], removed.role, removed.trust, PermitsSubstitution(removed));
  }

  lemma {:induction false} NoStageOf(stages: seq<PlanStage>, producer: Id, reviewer: Id, permitted: bool, id: Id)
    requires stages == Reviewed(producer, reviewer, permitted) && id != producer && id != reviewer
    ensures PreviousStage(stages, id).None?
  {
    PreviousStageFinds(stages, id);
  }

  lemma {:induction false} RenamingAccepted(plan: seq<PlanStage>, baseline: seq<PlanStage>, producer: Id, before: Id, after: Id)
    requires before != after && before != producer && after != producer
    requires plan == Reviewed(producer, after, true) && baseline == Reviewed(producer, before, false)
    ensures Accepted(plan, baseline) && GainsPermission(plan, baseline, 1)
  {
    PreviousStageOf(baseline, 0);
    NoStageOf(baseline, producer, before, false, after);
    RenamedReviewerAnswers(plan, producer, before, after);
    assert plan[0] == baseline[0] && baseline[1] == Reviewing(before, producer, false);
    assert SurvivingHolds(plan, baseline[0], plan[0]);
    PreviousStageFinds(plan, producer);
    assert plan[0].id == producer;
    assert IsStage(plan, baseline[0].id);
  }

  /**
    Renaming a reviewer is how a plan gains a permission no stage had: both plans are valid
    and the ratchet accepts the one for the other.
   */
  lemma RenamingGainsPermission(producer: Id, before: Id, after: Id)
    requires before != after && before != producer && after != producer
    ensures ValidStageGraph(Reviewed(producer, before, false)) && ValidStageGraph(Reviewed(producer, after, true))
    ensures Accepted(Reviewed(producer, after, true), Reviewed(producer, before, false))
    ensures forall i | 0 <= i < 2 :: !PermitsSubstitution(Reviewed(producer, before, false)[i])
    ensures GainsPermission(Reviewed(producer, after, true), Reviewed(producer, before, false), 1)
  {
    ReviewedIsValid(Reviewed(producer, after, true), producer, after, true);
    ReviewedIsValid(Reviewed(producer, before, false), producer, before, false);
    RenamingAccepted(Reviewed(producer, after, true), Reviewed(producer, before, false), producer, before, after);
  }
}
