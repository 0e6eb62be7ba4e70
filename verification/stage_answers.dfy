/** The stage graphs a plan may be, stage by stage in terms of their own fields. */
module StageAnswers {
  import opened Ids
  import opened Graphs
  import opened Vocabulary
  import opened Plans
  import opened Reachability
  import opened StageGraphs

  ghost predicate RoleIsKnown(role: Role) {
    || role == ProductArchitect || role == SystemArchitect || role == Planner || role == Implementer || role == Tester
    || role == SecurityReviewer || role == Reviewer || role == Integrator || role == ReleaseReviewer
  }

  ghost predicate CapabilityIsKnown(c: Capability) {
    || c == RequirementsAnalysis || c == ArchitectureReasoning || c == RepositoryAnalysis
    || c == CodeChange || c == Verification || c == SecurityReview
  }

  /** Nothing is stated that only a worker needs. */
  ghost predicate NoWorkerNeeds(stage: PlanStage) {
    stage.role == None && stage.profile == None && |stage.requiresCapabilities| == 0 && stage.trust == Unstated && stage.independence == None
  }

  /** A worker has a known role and known capabilities; a gate has something to judge, and only a human one stands in for a role. */
  ghost predicate KindFits(stage: PlanStage) {
    match stage.kind
    case AgentStage =>
      (exists role :: stage.role == Some(role) && RoleIsKnown(role)) && forall c | c in stage.requiresCapabilities :: CapabilityIsKnown(c)
    case AssuranceGate => NoWorkerNeeds(stage) && |stage.requiredClaims| > 0 && stage.substitutesRole == None
    case HumanDecisionGate =>
      && NoWorkerNeeds(stage) && (|stage.requiredClaims| > 0 || stage.action != None)
      && (stage.substitutesRole == None || exists role :: stage.substitutesRole == Some(role) && RoleIsKnown(role))
    case UnknownKind(_) => false
  }

  /** Only a worker other than the planner may say how it executes, and only an integrator of several stages composes. */
  ghost predicate ExecutionFits(stage: PlanStage) {
    match stage.executionKind
    case DefaultExecution => true
    case ProviderExecution => stage.kind == AgentStage && stage.role != Some(Planner)
    case IntegrationCompose => stage.kind == AgentStage && stage.role == Some(Integrator) && |stage.dependsOn| >= 2
    case UnknownExecution(_) => false
  }

  /** Each dependency is another stage, named once. */
  ghost predicate DependenciesFit(stages: seq<PlanStage>, i: nat)
    requires i < |stages|
  {
    && (forall j, k | 0 <= j < |stages[i].dependsOn| && 0 <= k < |stages[i].dependsOn| && stages[i].dependsOn[j] == stages[i].dependsOn[k] :: j == k)
    && forall d | d in stages[i].dependsOn :: exists k :: 0 <= k < |stages| && k != i && stages[k].id == d
  }

  /** A dimension workers can differ in, and peers that are other workers the stage comes after. */
  ghost predicate IndependenceFits(stages: seq<PlanStage>, i: nat)
    requires i < |stages|
  {
    match stages[i].independence
    case None => true
    case Some(independence) =>
      && (|| independence.dimension == AgentProfileDimension || independence.dimension == ExecutionAgentDimension
          || independence.dimension == ProviderKindDimension || independence.dimension == VendorFamilyDimension)
      && |independence.differentFrom| > 0
      && forall p | p in independence.differentFrom ::
           exists k :: 0 <= k < |stages| && k != i && stages[k].id == p && stages[k].kind == AgentStage
             && Reaches(StageGraph(stages), stages[i].id, p)
  }

  ghost predicate StageFits(stages: seq<PlanStage>, i: nat)
    requires i < |stages|
  {
    KindFits(stages[i]) && ExecutionFits(stages[i]) && DependenciesFit(stages, i) && IndependenceFits(stages, i)
  }

  ghost predicate Plain(c: char) {
    c in "abcdefghijklmnopqrstuvwxyz0123456789"
  }

  /** A carrier has a well-formed name, integrates deterministically, and nothing that integrates comes after it. */
  ghost predicate CarrierFits(stages: seq<PlanStage>, i: nat)
    requires i < |stages|
  {
    match stages[i].acceptanceFeature
    case None => true
    case Some(name) =>
      && 1 <= |name| <= 48 && Plain(name[0]) && (forall c | c in name :: Plain(c) || c == '-')
      && stages[i].kind == AgentStage && stages[i].executionKind == IntegrationCompose
      && forall k | 0 <= k < |stages| && k != i && stages[k].executionKind == IntegrationCompose :: !Reaches(StageGraph(stages), stages[k].id, stages[i].id)
  }

  lemma PlainExactly(c: char)
    ensures FeatureChar(c) <==> Plain(c)
  {
  }

  lemma RolesExactly(role: Role, c: Capability)
    ensures KnownRole(role) <==> RoleIsKnown(role)
    ensures KnownCapability(c) <==> CapabilityIsKnown(c)
  {
  }

  lemma {:induction false} NameExactly(name: string)
    ensures ValidAcceptanceFeature(name) <==> 1 <= |name| <= 48 && Plain(name[0]) && (forall c | c in name :: Plain(c) || c == '-')
  {
    forall c ensures FeatureChar(c) <==> Plain(c) { PlainExactly(c); }
    if 1 <= |name| && forall c | c in name :: Plain(c) || c == '-' {
      forall i | 1 <= i < |name| ensures FeatureChar(name[i]) || name[i] == '-' { assert name[i] in name; }
    }
  }

  lemma {:induction false} StageAloneExactly(stage: PlanStage)
    ensures ValidKind(stage) <==> KindFits(stage)
    ensures ValidExecutionKind(stage) <==> ExecutionFits(stage)
  {
    forall c ensures KnownCapability(c) <==> CapabilityIsKnown(c) { RolesExactly(Planner, c); }
    forall role ensures KnownRole(role) <==> RoleIsKnown(role) { RolesExactly(role, CodeChange); }
  }

  lemma {:induction false} OtherStage(stages: seq<PlanStage>, byID: map<Id, PlanStage>, i: nat, d: Id)
    requires DistinctStages(stages) && IndexesStages(stages, byID) && i < |stages|
    ensures d != stages[i].id && d in byID <==> exists k :: 0 <= k < |stages| && k != i && stages[k].id == d
    ensures forall k | 0 <= k < |stages| && stages[k].id == d :: d in byID && byID[d] == stages[k]
  {
  }

  lemma {:induction false} DependenciesExactly(stages: seq<PlanStage>, byID: map<Id, PlanStage>, i: nat)
    requires DistinctStages(stages) && IndexesStages(stages, byID) && i < |stages|
    ensures ValidStageDependencies(stages[i], byID) <==> DependenciesFit(stages, i)
  {
    forall d ensures d != stages[i].id && d in byID <==> exists k :: 0 <= k < |stages| && k != i && stages[k].id == d {
      OtherStage(stages, byID, i, d);
    }
    var deps := stages[i].dependsOn;
    assert Distinct(deps) <==> forall j, k | 0 <= j < |deps| && 0 <= k < |deps| && deps[j] == deps[k] :: j == k;
  }

  lemma {:induction false} PeerExactly(stages: seq<PlanStage>, byID: map<Id, PlanStage>, i: nat, p: Id)
    requires DistinctStages(stages) && IndexesStages(stages, byID) && i < |stages|
    ensures ValidPeer(stages[i], byID, p) <==>
              exists k :: 0 <= k < |stages| && k != i && stages[k].id == p && stages[k].kind == AgentStage
                && Reaches(StageGraph(stages), stages[i].id, p)
  {
    OtherStage(stages, byID, i, p);
    IndexedGraph(stages, byID);
  }

  lemma {:induction false} IndependenceExactly(stages: seq<PlanStage>, byID: map<Id, PlanStage>, i: nat)
    requires DistinctStages(stages) && IndexesStages(stages, byID) && i < |stages|
    ensures ValidIndependence(stages[i], byID) <==> IndependenceFits(stages, i)
  {
    forall p ensures ValidPeer(stages[i], byID, p) <==>
                       exists k :: 0 <= k < |stages| && k != i && stages[k].id == p && stages[k].kind == AgentStage
                         && Reaches(StageGraph(stages), stages[i].id, p) {
      PeerExactly(stages, byID, i, p);
    }
  }

  lemma {:induction false} FeedsExactly(stages: seq<PlanStage>, g: Graph, i: nat)
    requires DistinctStages(stages) && i < |stages|
    ensures FeedsIntegration(stages, g, stages[i].id) <==>
              exists k :: 0 <= k < |stages| && k != i && stages[k].executionKind == IntegrationCompose && Reaches(g, stages[k].id, stages[i].id)
  {
  }

  lemma {:induction false} CarrierExactly(stages: seq<PlanStage>, i: nat)
    requires DistinctStages(stages) && i < |stages|
    ensures ValidCarrier(stages, StageGraph(stages), stages[i]) <==> CarrierFits(stages, i)
  {
    FeedsExactly(stages, StageGraph(stages), i);
    if stages[i].acceptanceFeature.Some? { NameExactly(stages[i].acceptanceFeature.value); }
  }

  lemma {:induction false} OneCarrier(stages: seq<PlanStage>)
    ensures Carriers(stages) == 0 <==> forall i | 0 <= i < |stages| :: stages[i].acceptanceFeature.None?
    ensures Carriers(stages) <= 1 <==>
              forall i, j | 0 <= i < j < |stages| :: stages[i].acceptanceFeature.None? || stages[j].acceptanceFeature.None?
  {
    if stages != [] {
      var before := stages[..|stages| - 1];
      OneCarrier(before);
      assert forall i | 0 <= i < |before| :: before[i] == stages[i];
    }
  }

  lemma {:induction false} StagesExactly(stages: seq<PlanStage>, byID: map<Id, PlanStage>)
    requires DistinctStages(stages) && IndexesStages(stages, byID)
    ensures (forall i | 0 <= i < |stages| :: ValidStage(stages[i], byID)) <==> (forall i | 0 <= i < |stages| :: StageFits(stages, i))
  {
    forall i | 0 <= i < |stages| ensures ValidStage(stages[i], byID) <==> StageFits(stages, i) {
      StageAloneExactly(stages[i]);
      DependenciesExactly(stages, byID, i);
      IndependenceExactly(stages, byID, i);
    }
    if forall i | 0 <= i < |stages| :: StageFits(stages, i) {
      forall i | 0 <= i < |stages| ensures ValidStage(stages[i], byID) { assert StageFits(stages, i); }
    }
  }

  lemma {:induction false} SomeIndexExactly(stages: seq<PlanStage>)
    requires DistinctStages(stages)
    ensures (exists byID :: IndexesStages(stages, byID) && forall i | 0 <= i < |stages| :: ValidStage(stages[i], byID)) <==>
              forall i | 0 <= i < |stages| :: StageFits(stages, i)
  {
    var byID := Indexed(stages);
    StagesExactly(stages, byID);
    if other :| IndexesStages(stages, other) && forall i | 0 <= i < |stages| :: ValidStage(stages[i], other) {
      SameIndex(stages, other, byID);
    }
  }

  /** At most one stage carries the feature. */
  ghost predicate AtMostOneCarrier(stages: seq<PlanStage>) {
    forall i, j | 0 <= i < j < |stages| :: stages[i].acceptanceFeature.None? || stages[j].acceptanceFeature.None?
  }

  lemma {:induction false} FeatureExactly(stages: seq<PlanStage>)
    requires DistinctStages(stages)
    ensures ValidFeature(stages, StageGraph(stages)) <==>
              (forall i | 0 <= i < |stages| :: CarrierFits(stages, i)) && AtMostOneCarrier(stages)
  {
    OneCarrier(stages);
    forall i | 0 <= i < |stages| ensures ValidCarrier(stages, StageGraph(stages), stages[i]) <==> CarrierFits(stages, i) { CarrierExactly(stages, i); }
    if forall i | 0 <= i < |stages| :: CarrierFits(stages, i) {
      forall i | 0 <= i < |stages| ensures ValidCarrier(stages, StageGraph(stages), stages[i]) { assert CarrierFits(stages, i); }
    }
  }

  /** The plans validation accepts: no id twice, every stage fits, at most one carries the feature and fits it, and there is no cycle. */
  lemma {:induction false} ValidExactly(stages: seq<PlanStage>)
    ensures ValidStageGraph(stages) <==>
              && |stages| > 0 && DistinctStages(stages)
              && (forall i | 0 <= i < |stages| :: StageFits(stages, i))
              && (forall i | 0 <= i < |stages| :: CarrierFits(stages, i)) && AtMostOneCarrier(stages)
              && forall a :: !Reaches(StageGraph(stages), a, a)
  {
    if DistinctStages(stages) {
      SomeIndexExactly(stages);
      FeatureExactly(stages);
    }
  }

  lemma SameIndex(stages: seq<PlanStage>, a: map<Id, PlanStage>, b: map<Id, PlanStage>)
    requires IndexesStages(stages, a) && IndexesStages(stages, b)
    ensures a == b
  {
    forall id | id in a ensures id in b && a[id] == b[id] {
      var i :| 0 <= i < |stages| && stages[i].id == id;
    }
    forall id | id in b ensures id in a {}
  }

  lemma {:induction false} Indexed(stages: seq<PlanStage>) returns (byID: map<Id, PlanStage>)
    requires DistinctStages(stages)
    ensures IndexesStages(stages, byID)
  {
    byID := map id | id in StageIds(stages) :: StageOf(stages, id);
    forall i | 0 <= i < |stages| ensures stages[i].id in byID && byID[stages[i].id] == stages[i] { StageOfExactly(stages, i); }
  }
}
