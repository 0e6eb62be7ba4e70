/** Policy's role obligations on a plan: how the compiler applies one, and when validation finds it met. */
module Obligations {
  import opened Ids
  import opened Graphs
  import opened Vocabulary
  import opened Plans
  import opened PlanCompiler
  import opened PlanCompilerLaws
  import opened Policies

  datatype Refusal = UnboundProducer | NamesOnlyItself | NothingToDifferFrom

  predicate Performs(stage: PlanStage, role: Role) {
    stage.kind.AgentStage? && stage.role == Some(role)
  }

  /** The first worker stage of a role, from position `i` on. */
  function FirstFrom(stages: seq<PlanStage>, role: Role, i: nat): (k: nat)
    requires i <= |stages|
    ensures i <= k <= |stages|
    ensures k < |stages| ==> Performs(stages[k], role)
    ensures forall j | i <= j < k :: !Performs(stages[j], role)
    decreases |stages| - i
  {
    if i == |stages| || Performs(stages[i], role) then i else FirstFrom(stages, role, i + 1)
  }

  // ---------------------------------------------------------------- applying an obligation

  function Produces(stage: PlanStage): bool {
    stage.role.Some? && ProducesMaterialChange(stage.role.value)
  }

  function NamedPeers(existing: Option<Independence>, required: Independence): set<Id> {
    (if existing.Some? then Elements(existing.value.differentFrom) else {}) + Elements(required.differentFrom)
  }

  /** `strengthenIndependence`: the stronger dimension, every named peer and, for a stage that produces nothing, the producers. */
  function StrengthenIndependence(existing: Option<Independence>, required: Independence, producers: seq<Id>, stage: PlanStage): Result<Independence, Refusal> {
    var dimension :=
      if existing.Some? && DimensionStrength(existing.value.dimension) > DimensionStrength(required.dimension)
      then existing.value.dimension else required.dimension;
    var stated := NamedPeers(existing, required);
    if Produces(stage) && stated == {} then Failure(UnboundProducer)
    else
      var all := if Produces(stage) then stated else stated + Elements(producers);
      var others := all - {stage.id};
      if others == {} then Failure(if stage.id in all then NamesOnlyItself else NothingToDifferFrom)
      else Success(Independence(dimension, Listing(others), required.humanSubstitutionPermitted))
  }

  function AddedStage(id: Id, role: Role, producers: seq<Id>): PlanStage {
    PlanStage(id, AgentStage, Some(role), DefaultExecution, None, producers, [], None, Unstated, None, None, None, [], None, None, StageBudget(0, 0, 0))
  }

  /** The plan with a stage for the role: as it is, or with one that comes after every material producer. */
  function WithRole(stages: seq<PlanStage>, role: Role, added: Id): (r: seq<PlanStage>) {
    if FirstFrom(stages, role, 0) < |stages| then stages else stages + [AddedStage(added, role, MaterialProducers(stages))]
  }

  /** The stage the obligation falls on, strengthened. */
  ghost function Strengthened(stages: seq<PlanStage>, stage: PlanStage, r: RoleRequirement): Result<PlanStage, Refusal> {
    var able := stage.(
      requiresCapabilities := MergeCapabilities(stage.requiresCapabilities, r.capabilities),
      trust := if TrustStrength(r.trust) > TrustStrength(stage.trust) then r.trust else stage.trust);
    if r.independence.None? then Success(able)
    else
      match StrengthenIndependence(stage.independence, r.independence.value, ProducersFor(stages, stage.id), stage)
      case Failure(why) => Failure(why)
      case Success(independence) => Success(able.(independence := Some(independence)))
  }

  ghost function Applied(stages: seq<PlanStage>, r: RoleRequirement, added: Id): Result<seq<PlanStage>, Refusal> {
    var base := WithRole(stages, r.role, added);
    var k := FirstFrom(base, r.role, 0);
    if k == |base| then Success(base)
    else
      match Strengthened(base, base[k], r)
      case Failure(why) => Failure(why)
      case Success(stage) => Success(base[k := stage])
  }

  /** `applyRoleObligation`; `added` is the unused id a new stage would get. */
  method ApplyRoleObligation(stages: seq<PlanStage>, r: RoleRequirement, added: Id) returns (applied: Result<seq<PlanStage>, Refusal>)
    ensures applied == Applied(stages, r, added)
  {
    var producers := MaterialProducers(stages);
    var base := stages;
    var index := 0;
    while index < |base| && !Performs(base[index], r.role)
      invariant index <= |base| && FirstFrom(base, r.role, 0) == FirstFrom(base, r.role, index)
    {
      index := index + 1;
    }
    if index == |base| {
      base := base + [AddedStage(added, r.role, producers)];
      FirstIsAdded(stages, r.role, base[|stages|]);
    }
    var stage := base[index];
    stage := stage.(requiresCapabilities := MergeCapabilities(stage.requiresCapabilities, r.capabilities));
    if TrustStrength(r.trust) > TrustStrength(stage.trust) { stage := stage.(trust := r.trust); }
    if r.independence.Some? {
      var bindable := ProducersExcept(base, stage.id);
      var strengthened := StrengthenIndependence(base[index].independence, r.independence.value, bindable, base[index]);
      if strengthened.Failure? { return Failure(strengthened.error); }
      stage := stage.(independence := Some(strengthened.value));
    }
    return Success(base[index := stage]);
  }

  lemma {:induction false} FirstUnique(stages: seq<PlanStage>, role: Role, i: nat, k: nat)
    requires i <= k < |stages| && Performs(stages[k], role) && forall j | i <= j < k :: !Performs(stages[j], role)
    ensures FirstFrom(stages, role, i) == k
    decreases k - i
  {
    if i < k { FirstUnique(stages, role, i + 1, k); }
  }

  lemma {:induction false} FirstIsAdded(stages: seq<PlanStage>, role: Role, stage: PlanStage)
    requires FirstFrom(stages, role, 0) == |stages| && Performs(stage, role)
    ensures FirstFrom(stages + [stage], role, 0) == |stages|
  {
    FirstUnique(stages + [stage], role, 0, |stages|);
  }

  // ---------------------------------------------------------------- when validation finds it met

  /** A human decision gate stands in for a role. */
  predicate Substitutes(stage: PlanStage, role: Role) {
    stage.kind.HumanDecisionGate? && stage.substitutesRole == Some(role)
  }

  function FirstSubstitute(stages: seq<PlanStage>, role: Role, i: nat): (k: nat)
    requires i <= |stages|
    ensures i <= k <= |stages|
    decreases |stages| - i
  {
    if i == |stages| || Substitutes(stages[i], role) then i else FirstSubstitute(stages, role, i + 1)
  }

  predicate NamesEveryProducer(producers: seq<Id>, stage: PlanStage, independence: Independence) {
    forall p | p in producers :: p == stage.id || p in independence.differentFrom
  }

  /** What validation asks of the role's stage, against the plan's producers. */
  predicate StageMeets(producers: seq<Id>, stage: PlanStage, r: RoleRequirement) {
    && (forall c | c in r.capabilities :: c in stage.requiresCapabilities)
    && TrustStrength(r.trust) <= TrustStrength(stage.trust)
    && (r.independence.Some? ==>
          && stage.independence.Some?
          && DimensionStrength(stage.independence.value.dimension) >= DimensionStrength(r.independence.value.dimension)
          && NamesEveryProducer(producers, stage, stage.independence.value)
          && (stage.independence.value.humanSubstitutionPermitted ==> r.independence.value.humanSubstitutionPermitted))
  }

  /** The role part of `unmetObligations`, for one requirement: there is nothing to report. */
  predicate Met(stages: seq<PlanStage>, r: RoleRequirement) {
    var k := FirstFrom(stages, r.role, 0);
    if k == |stages| then
      var s := FirstSubstitute(stages, r.role, 0);
      s < |stages| && r.independence.Some? && r.independence.value.humanSubstitutionPermitted && stages[s].requiredClaims != []
    else StageMeets(MaterialProducers(stages), stages[k], r)
  }

  lemma {:induction false} AmongExactly(ontology: seq<Capability>, held: seq<Capability>, c: Capability)
    ensures c in Among(ontology, held) <==> c in ontology && c in held
  {
    if ontology != [] { AmongExactly(ontology[1..], held, c); }
  }

  lemma {:induction false} CapabilitiesMerged(existing: seq<Capability>, added: seq<Capability>, c: Capability)
    requires KnownCapability(c)
    ensures c in MergeCapabilities(existing, added) <==> c in existing || c in added
  {
    AmongExactly([RequirementsAnalysis, ArchitectureReasoning, RepositoryAnalysis, CodeChange, Verification, SecurityReview], existing + added, c);
  }

  /** What applying a role's obligation does to the plan. */
  lemma {:induction false} AppliedShape(stages: seq<PlanStage>, r: RoleRequirement, added: Id)
    requires Applied(stages, r, added).Success?
    ensures var base := WithRole(stages, r.role, added);
            var k := FirstFrom(base, r.role, 0);
            var after := Applied(stages, r, added).value;
            && k < |base| && |after| == |base| && stages <= base
            && after == base[k := after[k]] && FirstFrom(after, r.role, 0) == k
            && after[k].id == base[k].id && after[k].kind == base[k].kind && after[k].role == base[k].role && after[k].dependsOn == base[k].dependsOn
            && Strengthened(base, base[k], r) == Success(after[k])
  {
    var base := WithRole(stages, r.role, added);
    if FirstFrom(stages, r.role, 0) == |stages| {
      FirstIsAdded(stages, r.role, AddedStage(added, r.role, MaterialProducers(stages)));
    }
    var k := FirstFrom(base, r.role, 0);
    var after := Applied(stages, r, added).value;
    FirstUnique(after, r.role, 0, k);
  }

  lemma {:induction false} SameStageGraph(base: seq<PlanStage>, k: nat, stage: PlanStage)
    requires k < |base| && stage.id == base[k].id && stage.kind == base[k].kind && stage.role == base[k].role && stage.dependsOn == base[k].dependsOn
    ensures StageGraph(base[k := stage]) == StageGraph(base)
    ensures MaterialProducers(base[k := stage]) == MaterialProducers(base)
  {
    assert StageNodes(base[k := stage]) == StageNodes(base);
    SameProducers(base[k := stage], base);
  }

  /** Which producers the strengthened stage names. */
  lemma {:induction false} NamedAfter(base: seq<PlanStage>, stage: PlanStage, required: Independence, p: Id)
    requires DistinctStages(base) && p in MaterialProducers(base) && p != stage.id
    requires StrengthenIndependence(stage.independence, required, ProducersFor(base, stage.id), stage).Success?
    ensures p in StrengthenIndependence(stage.independence, required, ProducersFor(base, stage.id), stage).value.differentFrom
       <==> p in NamedPeers(stage.independence, required) || (!Produces(stage) && !Reaches(StageGraph(base), p, stage.id))
  {
    var r := StrengthenIndependence(stage.independence, required, ProducersFor(base, stage.id), stage).value;
    var stated := NamedPeers(stage.independence, required);
    var all := if Produces(stage) then stated else stated + Elements(ProducersFor(base, stage.id));
    ListingLists(all - {stage.id});
    assert p in r.differentFrom <==> p in Elements(r.differentFrom);
    ProducersForExactly(base, stage.id, p);
  }

  /** Every producer is one the role's stage names already, or one it could be bound to. */
  ghost predicate CanNameEveryProducer(base: seq<PlanStage>, r: RoleRequirement)
    requires FirstFrom(base, r.role, 0) < |base| && r.independence.Some?
  {
    var stage := base[FirstFrom(base, r.role, 0)];
    forall p | p in MaterialProducers(base) && p != stage.id ::
      p in NamedPeers(stage.independence, r.independence.value) || (!Produces(stage) && !Reaches(StageGraph(base), p, stage.id))
  }

  lemma {:induction false} NamesExactly(base: seq<PlanStage>, r: RoleRequirement, after: PlanStage)
    requires DistinctStages(base) && r.independence.Some? && FirstFrom(base, r.role, 0) < |base|
    requires Strengthened(base, base[FirstFrom(base, r.role, 0)], r) == Success(after)
    ensures NamesEveryProducer(MaterialProducers(base), base[FirstFrom(base, r.role, 0)], after.independence.value) <==> CanNameEveryProducer(base, r)
  {
    var stage := base[FirstFrom(base, r.role, 0)];
    forall p | p in MaterialProducers(base) && p != stage.id
      ensures p in after.independence.value.differentFrom <==>
                p in NamedPeers(stage.independence, r.independence.value) || (!Produces(stage) && !Reaches(StageGraph(base), p, stage.id))
    {
      NamedAfter(base, stage, r.independence.value, p);
    }
  }

  lemma {:induction false} BaseDistinct(stages: seq<PlanStage>, role: Role, added: Id)
    requires DistinctStages(stages) && !IsStage(stages, added)
    ensures DistinctStages(WithRole(stages, role, added))
  {
  }

  lemma {:induction false} StrengthenedMeets(base: seq<PlanStage>, r: RoleRequirement, after: PlanStage)
    requires DistinctStages(base) && RoleKnown(r) && FirstFrom(base, r.role, 0) < |base|
    requires Strengthened(base, base[FirstFrom(base, r.role, 0)], r) == Success(after)
    ensures StageMeets(MaterialProducers(base), after, r) <==> (r.independence.None? || CanNameEveryProducer(base, r))
  {
    forall c | c in r.capabilities ensures c in after.requiresCapabilities {
      CapabilitiesMerged(base[FirstFrom(base, r.role, 0)].requiresCapabilities, r.capabilities, c);
    }
    if r.independence.Some? { NamesExactly(base, r, after); }
  }

  /**
    Applying a role's obligation makes validation find it met exactly when every material
    producer other than the stage itself is one it names already, or, for a stage that
    produces nothing, one that does not depend on it.
   */
  lemma {:induction false} MetExactly(stages: seq<PlanStage>, r: RoleRequirement, added: Id)
    requires DistinctStages(stages) && !IsStage(stages, added) && RoleKnown(r) && Applied(stages, r, added).Success?
    ensures FirstFrom(WithRole(stages, r.role, added), r.role, 0) < |WithRole(stages, r.role, added)|
    ensures Met(Applied(stages, r, added).value, r) <==> (r.independence.None? || CanNameEveryProducer(WithRole(stages, r.role, added), r))
  {
    AppliedShape(stages, r, added);
    var base := WithRole(stages, r.role, added);
    var k := FirstFrom(base, r.role, 0);
    var after := Applied(stages, r, added).value;
    SameStageGraph(base, k, after[k]);
    BaseDistinct(stages, r.role, added);
    StrengthenedMeets(base, r, after[k]);
  }

  /** A stage policy adds itself is always met: nothing depends on it, and it follows every producer. */
  lemma {:induction false} AddedStageIsMet(stages: seq<PlanStage>, r: RoleRequirement, added: Id)
    requires DistinctStages(stages) && Closed(StageGraph(stages)) && !IsStage(stages, added) && RoleKnown(r) && Applied(stages, r, added).Success?
    requires FirstFrom(stages, r.role, 0) == |stages| && !ProducesMaterialChange(r.role)
    ensures Met(Applied(stages, r, added).value, r)
  {
    MetExactly(stages, r, added);
    AppliedShape(stages, r, added);
    var base := WithRole(stages, r.role, added);
    FirstIsAdded(stages, r.role, AddedStage(added, r.role, MaterialProducers(stages)));
    forall p | p in MaterialProducers(base) && p != added ensures !Reaches(StageGraph(base), p, added) {
      NothingDependsOnAdded(stages, r.role, added, p);
    }
  }

  lemma {:induction false} SameBefore(stages: seq<PlanStage>, role: Role, added: Id, x: Id)
    requires DistinctStages(stages) && !IsStage(stages, added) && x in StageGraph(stages)
    ensures Deps(StageGraph(WithRole(stages, role, added)), x) == Deps(StageGraph(stages), x)
  {
    var base := WithRole(stages, role, added);
    StageGraphEntries(stages);
    StageGraphEntries(base);
    var i :| 0 <= i < |stages| && stages[i].id == x;
    assert base[i] == stages[i];
  }

  lemma {:induction false} OneMoreStage(stages: seq<PlanStage>, role: Role, added: Id, x: Id)
    requires DistinctStages(stages) && !IsStage(stages, added)
    ensures x in StageGraph(WithRole(stages, role, added)) ==> x in StageGraph(stages) || x == added
  {
    StageGraphEntries(stages);
    StageGraphEntries(WithRole(stages, role, added));
    StageOfBase(stages, role, added, x);
  }

  lemma {:induction false} StageOfBase(stages: seq<PlanStage>, role: Role, added: Id, x: Id)
    ensures IsStage(WithRole(stages, role, added), x) ==> IsStage(stages, x) || x == added
  {
    var base := WithRole(stages, role, added);
    if IsStage(base, x) && x != added {
      var i :| 0 <= i < |base| && base[i].id == x;
      assert i < |stages| && stages[i].id == x;
    }
  }

  lemma {:induction false} NothingDependsOnAdded(stages: seq<PlanStage>, role: Role, added: Id, p: Id)
    requires DistinctStages(stages) && Closed(StageGraph(stages)) && !IsStage(stages, added)
    requires FirstFrom(stages, role, 0) == |stages| && p != added
    ensures !Reaches(StageGraph(WithRole(stages, role, added)), p, added)
  {
    var g, g' := StageGraph(stages), StageGraph(WithRole(stages, role, added));
    StageGraphEntries(stages);
    if Reaches(g', p, added) {
      forall x, d | x in g.Keys && d in Deps(g', x) ensures d in g.Keys { SameBefore(stages, role, added, x); }
      var d := ReachesFirst(g', p, added);
      OneMoreStage(stages, role, added, p);
      ClosedUnderReach(g', g.Keys, p, added);
    }
  }

  // ---------------------------------------------------------------- one obligation after another

  /** Every stage is kept, as what it was, asking at least what it asked. */
  ghost predicate Kept(before: PlanStage, after: PlanStage) {
    && after.id == before.id && after.kind == before.kind && after.role == before.role && after.dependsOn == before.dependsOn
    && TrustStrength(before.trust) <= TrustStrength(after.trust)
    && (forall c | c in before.requiresCapabilities && KnownCapability(c) :: c in after.requiresCapabilities)
    && (before.independence.Some? ==>
          && after.independence.Some?
          && DimensionStrength(before.independence.value.dimension) <= DimensionStrength(after.independence.value.dimension)
          && forall p | p in before.independence.value.differentFrom :: p == before.id || p in after.independence.value.differentFrom)
  }

  lemma {:induction false} StrengthenedKept(base: seq<PlanStage>, stage: PlanStage, r: RoleRequirement)
    requires Strengthened(base, stage, r).Success?
    ensures Kept(stage, Strengthened(base, stage, r).value)
  {
    var after := Strengthened(base, stage, r).value;
    forall c | c in stage.requiresCapabilities && KnownCapability(c) ensures c in after.requiresCapabilities {
      CapabilitiesMerged(stage.requiresCapabilities, r.capabilities, c);
    }
    if r.independence.Some? && stage.independence.Some? {
      var stated := NamedPeers(stage.independence, r.independence.value);
      var all := if Produces(stage) then stated else stated + Elements(ProducersFor(base, stage.id));
      ListingLists(all - {stage.id});
      forall p | p in stage.independence.value.differentFrom ensures p == stage.id || p in after.independence.value.differentFrom {
        assert p in all;
        assert p in after.independence.value.differentFrom <==> p in Elements(after.independence.value.differentFrom);
      }
    }
  }

  /** Applying an obligation only adds a stage or strengthens one; it removes and weakens nothing. */
  lemma {:induction false} OnlyStrengthens(stages: seq<PlanStage>, r: RoleRequirement, added: Id, i: nat)
    requires Applied(stages, r, added).Success? && i < |stages|
    ensures i < |Applied(stages, r, added).value| && Kept(stages[i], Applied(stages, r, added).value[i])
  {
    AppliedShape(stages, r, added);
    var base := WithRole(stages, r.role, added);
    StrengthenedKept(base, base[FirstFrom(base, r.role, 0)], r);
  }
}
