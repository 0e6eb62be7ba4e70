/** What an applied role obligation leaves of the plan, and when one is met, stage by stage and field by field. */
module ObligationAnswers {
  import opened Ids
  import opened Graphs
  import opened Vocabulary
  import opened Plans
  import opened PlanCompiler
  import opened PlanCompilerLaws
  import opened CompletionAnswers
  import opened Policies
  import opened Obligations

  ghost predicate Does(stage: PlanStage, role: Role) {
    stage.kind == AgentStage && stage.role == Some(role)
  }

  /** The first worker of the role. */
  ghost predicate FirstOf(stages: seq<PlanStage>, role: Role, k: nat) {
    k < |stages| && Does(stages[k], role) && forall j | 0 <= j < k :: !Does(stages[j], role)
  }

  lemma {:induction false} FirstExactly(stages: seq<PlanStage>, role: Role, k: nat)
    requires k < |stages|
    ensures FirstFrom(stages, role, 0) == k <==> FirstOf(stages, role, k)
  {
    if FirstOf(stages, role, k) { FirstUnique(stages, role, 0, k); }
  }

  /** Every worker that makes the change is listed, ascending. */
  ghost predicate ListsMakers(stages: seq<PlanStage>, producers: seq<Id>) {
    Ascending(producers) && forall p :: p in producers <==> MakerOf(stages, p)
  }

  ghost predicate MakerOf(stages: seq<PlanStage>, p: Id) {
    exists i :: 0 <= i < |stages| && stages[i].id == p && MakesTheChange(stages[i])
  }

  lemma {:induction false} MakersListed(stages: seq<PlanStage>)
    ensures ListsMakers(stages, MaterialProducers(stages))
  {
    SortSorts(ProducerIds(stages));
    forall p ensures p in MaterialProducers(stages) <==> MakerOf(stages, p) { MaterialProducersExactly(stages, p); }
  }

  /** A stage that says nothing but its role and what it comes after. */
  ghost predicate OnlyReviews(stage: PlanStage, id: Id, role: Role, stages: seq<PlanStage>) {
    && stage.id == id && Does(stage, role) && ListsMakers(stages, stage.dependsOn)
    && stage.executionKind == DefaultExecution && stage.acceptanceFeature == None && |stage.requiresCapabilities| == 0
    && stage.independence == None && stage.trust == Unstated && stage.invocationMode == None && stage.profile == None
    && stage.contextPolicy == None && |stage.requiredClaims| == 0 && stage.action == None && stage.substitutesRole == None
    && stage.budget == StageBudget(0, 0, 0)
  }

  /** The plan before the role's stage is strengthened: it has one already, or one more at the end. */
  lemma {:induction false} BaseHasRole(stages: seq<PlanStage>, role: Role, added: Id)
    ensures var base := WithRole(stages, role, added);
            && stages <= base
            && ((exists k: nat :: FirstOf(stages, role, k)) ==> base == stages)
            && ((forall k: nat :: !FirstOf(stages, role, k)) ==> |base| == |stages| + 1 && OnlyReviews(base[|stages|], added, role, stages))
  {
    var k := FirstFrom(stages, role, 0);
    MakersListed(stages);
    if k < |stages| { FirstExactly(stages, role, k); }
    forall j | FirstOf(stages, role, j) ensures k < |stages| { FirstExactly(stages, role, j); }
  }

  /** A peer that the stage, the policy or the change itself gives it to differ from. */
  ghost predicate ToDifferFrom(base: seq<PlanStage>, stage: PlanStage, required: Independence, p: Id) {
    || (stage.independence.Some? && p in stage.independence.value.differentFrom)
    || p in required.differentFrom
    || (!Makes(stage.role) && MakerOf(base, p) && p != stage.id && !Reaches(StageGraph(base), p, stage.id))
  }

  /** The stronger of the two dimensions, every peer but the stage itself, and the policy's own word on a person standing in. */
  ghost predicate Separated(base: seq<PlanStage>, stage: PlanStage, required: Independence, i: Independence) {
    && (i.dimension == if stage.independence.Some? && DimensionStrength(stage.independence.value.dimension) > DimensionStrength(required.dimension)
                       then stage.independence.value.dimension else required.dimension)
    && i.humanSubstitutionPermitted == required.humanSubstitutionPermitted
    && StrictlyAscending(i.differentFrom)
    && forall p :: p in i.differentFrom <==> p != stage.id && ToDifferFrom(base, stage, required, p)
  }

  lemma {:induction false} PeersExactly(base: seq<PlanStage>, stage: PlanStage, required: Independence, p: Id)
    requires DistinctStages(base)
    ensures p in NamedPeers(stage.independence, required) || (!Produces(stage) && p in Elements(ProducersFor(base, stage.id)))
       <==> ToDifferFrom(base, stage, required, p)
  {
    ProducersForExactly(base, stage.id, p);
    MakersListed(base);
    assert Produces(stage) <==> Makes(stage.role);
    assert forall s: seq<Id> :: p in Elements(s) <==> p in s;
  }

  /** Every peer there is to differ from, the stage itself among them if something names it. */
  ghost function AllPeers(base: seq<PlanStage>, stage: PlanStage, required: Independence): set<Id> {
    if Produces(stage) then NamedPeers(stage.independence, required)
    else NamedPeers(stage.independence, required) + Elements(ProducersFor(base, stage.id))
  }

  lemma {:induction false} AllPeersExactly(base: seq<PlanStage>, stage: PlanStage, required: Independence)
    requires DistinctStages(base)
    ensures forall p :: p in AllPeers(base, stage, required) <==> ToDifferFrom(base, stage, required, p)
    ensures Produces(stage) <==> Makes(stage.role)
  {
    forall p ensures p in AllPeers(base, stage, required) <==> ToDifferFrom(base, stage, required, p) { PeersExactly(base, stage, required, p); }
  }

  lemma ListedBut(all: set<Id>, self: Id)
    ensures StrictlyAscending(Listing(all - {self})) && forall p :: p in Listing(all - {self}) <==> p in all && p != self
  {
    ListingLists(all - {self});
    forall p ensures p in Listing(all - {self}) <==> p in all - {self} {
      assert p in Listing(all - {self}) <==> p in Elements(Listing(all - {self}));
    }
  }

  /** When a stage's independence can be strengthened, and to what. */
  lemma {:induction false} StrengthenedExactly(base: seq<PlanStage>, stage: PlanStage, required: Independence)
    requires DistinctStages(base)
    ensures var r := StrengthenIndependence(stage.independence, required, ProducersFor(base, stage.id), stage);
            && (r.Success? <==> exists p :: p != stage.id && ToDifferFrom(base, stage, required, p))
            && (r.Success? ==> Separated(base, stage, required, r.value))
  {
    var all := AllPeers(base, stage, required);
    AllPeersExactly(base, stage, required);
    ListedBut(all, stage.id);
    if all - {stage.id} != {} { var p :| p in all - {stage.id}; }
  }

  /** Why one cannot: a worker that makes the change is given nobody to differ from, only itself is named, or nothing makes the change. */
  lemma {:induction false} RefusedBecause(base: seq<PlanStage>, stage: PlanStage, required: Independence)
    requires DistinctStages(base) && forall p | p != stage.id :: !ToDifferFrom(base, stage, required, p)
    ensures StrengthenIndependence(stage.independence, required, ProducersFor(base, stage.id), stage) ==
              Failure(if ToDifferFrom(base, stage, required, stage.id) then NamesOnlyItself
                      else if Makes(stage.role) then UnboundProducer else NothingToDifferFrom)
  {
    var all := AllPeers(base, stage, required);
    AllPeersExactly(base, stage, required);
    assert all - {stage.id} == {};
    if stage.id in all { assert all == {stage.id}; }
  }

  // ---------------------------------------------------------------- the stage the obligation falls on

  /** The known capabilities either asks for; unknown words are dropped. */
  ghost predicate AsksBoth(before: PlanStage, r: RoleRequirement, after: PlanStage) {
    forall c :: c in after.requiresCapabilities <==> Rank(c) > 0 && (c in before.requiresCapabilities || c in r.capabilities)
  }

  lemma CapabilitiesExactly(existing: seq<Capability>, added: seq<Capability>, c: Capability)
    ensures c in MergeCapabilities(existing, added) <==> Rank(c) > 0 && (c in existing || c in added)
  {
    if KnownCapability(c) {
      CapabilitiesMerged(existing, added, c);
    } else {
      Obligations.AmongExactly([RequirementsAnalysis, ArchitectureReasoning, RepositoryAnalysis, CodeChange, Verification, SecurityReview], existing + added, c);
    }
  }

  /**
    An applied obligation: the role's first worker asks for what it asked and what policy asks,
    at the higher trust, separated from every peer there is; everything else about it and every
    other stage stays as it was.
   */
  lemma {:induction false} AppliedExactly(stages: seq<PlanStage>, r: RoleRequirement, added: Id, k: nat)
    requires DistinctStages(stages) && !IsStage(stages, added) && Applied(stages, r, added).Success?
    requires FirstOf(WithRole(stages, r.role, added), r.role, k)
    ensures var base, after := WithRole(stages, r.role, added), Applied(stages, r, added).value;
            && |after| == |base| && (forall j | 0 <= j < |base| && j != k :: after[j] == base[j])
            && AsksBoth(base[k], r, after[k])
            && after[k].trust == (if TrustStrength(r.trust) > TrustStrength(base[k].trust) then r.trust else base[k].trust)
            && (r.independence.None? ==> after[k].independence == base[k].independence)
            && (r.independence.Some? ==> after[k].independence.Some? && Separated(base, base[k], r.independence.value, after[k].independence.value))
            && after[k] == base[k].(requiresCapabilities := after[k].requiresCapabilities, trust := after[k].trust, independence := after[k].independence)
  {
    var base, after := WithRole(stages, r.role, added), Applied(stages, r, added).value;
    AppliedShape(stages, r, added);
    FirstExactly(base, r.role, k);
    BaseDistinct(stages, r.role, added);
    forall c ensures c in after[k].requiresCapabilities <==> Rank(c) > 0 && (c in base[k].requiresCapabilities || c in r.capabilities) {
      CapabilitiesExactly(base[k].requiresCapabilities, r.capabilities, c);
    }
    if r.independence.Some? { StrengthenedExactly(base, base[k], r.independence.value); }
  }

  /** An obligation is refused exactly when it asks independence and there is nobody for the role's first worker to differ from. */
  lemma {:induction false} AppliesExactly(stages: seq<PlanStage>, r: RoleRequirement, added: Id, k: nat)
    requires DistinctStages(stages) && !IsStage(stages, added) && FirstOf(WithRole(stages, r.role, added), r.role, k)
    ensures var base := WithRole(stages, r.role, added);
            Applied(stages, r, added).Success? <==>
              (r.independence.Some? ==> exists p :: p != base[k].id && ToDifferFrom(base, base[k], r.independence.value, p))
  {
    var base := WithRole(stages, r.role, added);
    FirstExactly(base, r.role, k);
    BaseDistinct(stages, r.role, added);
    if r.independence.Some? { StrengthenedExactly(base, base[k], r.independence.value); }
  }

  // ---------------------------------------------------------------- when it is met

  /** What validation asks of the role's first worker. */
  ghost predicate Answers(stages: seq<PlanStage>, stage: PlanStage, r: RoleRequirement) {
    && (forall c | c in r.capabilities :: c in stage.requiresCapabilities)
    && TrustStrength(stage.trust) >= TrustStrength(r.trust)
    && match r.independence
       case None => true
       case Some(required) =>
         && stage.independence.Some?
         && DimensionStrength(stage.independence.value.dimension) >= DimensionStrength(required.dimension)
         && (forall p | MakerOf(stages, p) && p != stage.id :: p in stage.independence.value.differentFrom)
         && (!required.humanSubstitutionPermitted ==> !stage.independence.value.humanSubstitutionPermitted)
  }

  /** The first gate at which a person stands in for the role. */
  ghost predicate FirstGateFor(stages: seq<PlanStage>, role: Role, s: nat) {
    && s < |stages| && stages[s].kind == StageKind.HumanDecisionGate && stages[s].substitutesRole == Some(role)
    && forall j | 0 <= j < s :: !(stages[j].kind == StageKind.HumanDecisionGate && stages[j].substitutesRole == Some(role))
  }

  lemma {:induction false} FirstSubstituteIs(stages: seq<PlanStage>, role: Role, i: nat)
    requires i <= |stages|
    ensures forall j | i <= j < FirstSubstitute(stages, role, i) :: !Substitutes(stages[j], role)
    ensures FirstSubstitute(stages, role, i) < |stages| ==> Substitutes(stages[FirstSubstitute(stages, role, i)], role)
    decreases |stages| - i
  {
    if i < |stages| && !Substitutes(stages[i], role) { FirstSubstituteIs(stages, role, i + 1); }
  }

  /**
    An obligation is met exactly when the role's first worker answers it, or, where no worker
    has the role, when a person stands in at a gate that states something to answer and policy
    permits that.
   */
  lemma {:induction false} MetMeans(stages: seq<PlanStage>, r: RoleRequirement)
    ensures Met(stages, r) <==>
              || (exists k: nat :: FirstOf(stages, r.role, k) && Answers(stages, stages[k], r))
              || ((forall k: nat :: !FirstOf(stages, r.role, k)) && r.independence.Some? && r.independence.value.humanSubstitutionPermitted
                  && exists s: nat :: FirstGateFor(stages, r.role, s) && |stages[s].requiredClaims| > 0)
  {
    var k := FirstFrom(stages, r.role, 0);
    MakersListed(stages);
    forall j | 0 <= j < |stages| ensures FirstFrom(stages, r.role, 0) == j <==> FirstOf(stages, r.role, j) { FirstExactly(stages, r.role, j); }
    if k < |stages| {
      assert FirstOf(stages, r.role, k);
      assert StageMeets(MaterialProducers(stages), stages[k], r) <==> Answers(stages, stages[k], r);
    } else {
      var s := FirstSubstitute(stages, r.role, 0);
      FirstSubstituteIs(stages, r.role, 0);
      if s < |stages| { assert FirstGateFor(stages, r.role, s); }
    }
  }
}
