/** The graph laws templates and plans share: stage validation, the cycle refusal, the feature rule. */
module StageGraphs {
  import opened Ids
  import opened Graphs
  import opened Kahn
  import opened Vocabulary
  import opened Plans
  import opened Reachability

  /** The index a validator builds; ids are distinct by the time it is read. */
  ghost predicate IndexesStages(stages: seq<PlanStage>, byID: map<Id, PlanStage>) {
    && (forall a :: a in byID <==> IsStage(stages, a))
    && forall i | 0 <= i < |stages| :: stages[i].id in byID && byID[stages[i].id] == stages[i]
  }

  lemma {:induction false} IndexedGraph(stages: seq<PlanStage>, byID: map<Id, PlanStage>)
    requires DistinctStages(stages) && IndexesStages(stages, byID)
    ensures IndexGraph(byID) == StageGraph(stages)
  {
    StageGraphEntries(stages);
    forall a | a in byID ensures a in StageGraph(stages) && IndexGraph(byID)[a] == StageGraph(stages)[a] {
      var i :| 0 <= i < |stages| && stages[i].id == a;
    }
  }

  // ---------------------------------------------------------------- one stage

  predicate ValidExecutionKind(stage: PlanStage) {
    && KnownExecutionKind(stage.executionKind)
    && (!stage.executionKind.DefaultExecution? ==> stage.kind.AgentStage? && stage.role != Some(Planner))
    && (stage.executionKind.IntegrationCompose? ==> stage.role == Some(Integrator) && |stage.dependsOn| >= 2)
  }

  predicate ValidWorker(stage: PlanStage) {
    && stage.role.Some? && KnownRole(stage.role.value)
    && forall c | c in stage.requiresCapabilities :: KnownCapability(c)
  }

  /** A gate creates no run, so it states nothing a worker would need. */
  predicate ValidGate(stage: PlanStage) {
    && stage.role.None? && stage.profile.None? && stage.requiresCapabilities == []
    && stage.trust.Unstated? && stage.independence.None?
    && (stage.kind.AssuranceGate? ==> stage.requiredClaims != [])
    && (stage.kind.HumanDecisionGate? ==> stage.requiredClaims != [] || stage.action.Some?)
    && (stage.substitutesRole.Some? ==> stage.kind.HumanDecisionGate? && KnownRole(stage.substitutesRole.value))
  }

  predicate ValidKind(stage: PlanStage) {
    match stage.kind
    case AgentStage => ValidWorker(stage)
    case AssuranceGate => ValidGate(stage)
    case HumanDecisionGate => ValidGate(stage)
    case UnknownKind(_) => false
  }

  ghost predicate ValidStageDependencies(stage: PlanStage, byID: map<Id, PlanStage>) {
    Distinct(stage.dependsOn) && forall d | d in stage.dependsOn :: d != stage.id && d in byID
  }

  /** Each stage an obligation names is an agent stage this one already depends on. */
  ghost predicate ValidPeer(stage: PlanStage, byID: map<Id, PlanStage>, peer: Id) {
    peer != stage.id && peer in byID && byID[peer].kind.AgentStage? && Reaches(IndexGraph(byID), stage.id, peer)
  }

  ghost predicate ValidIndependence(stage: PlanStage, byID: map<Id, PlanStage>) {
    stage.independence.Some? ==>
      && KnownDimension(stage.independence.value.dimension)
      && !stage.independence.value.dimension.HumanDimension?
      && stage.independence.value.differentFrom != []
      && forall p | p in stage.independence.value.differentFrom :: ValidPeer(stage, byID, p)
  }

  ghost predicate ValidStage(stage: PlanStage, byID: map<Id, PlanStage>) {
    && ValidExecutionKind(stage)
    && ValidKind(stage)
    && ValidStageDependencies(stage, byID)
    && ValidIndependence(stage, byID)
  }

  /** `validateStage`. */
  method ValidateStage(stage: PlanStage, byID: map<Id, PlanStage>) returns (ok: bool)
    ensures ok <==> ValidStage(stage, byID)
  {
    if !ValidExecutionKind(stage) || !ValidKind(stage) { return false; }
    var seen: set<Id> := {};
    for j := 0 to |stage.dependsOn|
      invariant Distinct(stage.dependsOn[..j])
      invariant forall a :: a in seen <==> a in stage.dependsOn[..j]
      invariant forall d | d in stage.dependsOn[..j] :: d != stage.id && d in byID
    {
      var dependency := stage.dependsOn[j];
      assert dependency in stage.dependsOn;
      assert stage.dependsOn[..j + 1] == stage.dependsOn[..j] + [dependency];
      if dependency == stage.id { return false; }
      if dependency in seen {
        var k: int :| 0 <= k < j && stage.dependsOn[..j][k] == dependency;
        assert stage.dependsOn[k] == stage.dependsOn[j];
        return false;
      }
      seen := seen + {dependency};
      if dependency !in byID { return false; }
    }
    assert stage.dependsOn[..|stage.dependsOn|] == stage.dependsOn;
    if stage.independence.None? { return true; }
    ok := ValidateIndependence(stage, stage.independence.value, byID);
  }

  method ValidateIndependence(stage: PlanStage, independence: Independence, byID: map<Id, PlanStage>) returns (ok: bool)
    requires stage.independence == Some(independence)
    ensures ok <==> ValidIndependence(stage, byID)
  {
    if !KnownDimension(independence.dimension) || independence.dimension.HumanDimension? { return false; }
    var peers := independence.differentFrom;
    if |peers| == 0 { return false; }
    for j := 0 to |peers|
      invariant forall k | 0 <= k < j :: ValidPeer(stage, byID, peers[k])
    {
      var other := peers[j];
      assert other in peers;
      if other == stage.id { return false; }
      if other !in byID { return false; }
      if !byID[other].kind.AgentStage? { return false; }
      var reached := DependsOnTransitively(stage.id, other, byID);
      if !reached { return false; }
    }
    return true;
  }

  // ---------------------------------------------------------------- cycles

  /** `refuseCycles`: the unresolved stages, ascending, when there is a cycle. */
  method RefuseCycles(stages: seq<PlanStage>) returns (r: Option<seq<Id>>)
    requires DistinctStages(stages)
    ensures r == if |Order(StageGraph(stages))| == |stages| then None
                 else Some(Listing(StageGraph(stages).Keys - Settled(StageGraph(stages))))
  {
    ghost var g := StageGraph(stages);
    StageGraphEntries(stages);
    var remaining, dependents := CountDependencies(StageNodes(stages));
    var ready := InitialReady(remaining);
    var c := Counter(remaining, ready);
    ghost var order: seq<Id> := [];
    var settled := 0;
    WalkStarts(g, dependents, c);
    while |c.ready| > 0
      invariant Walking(g, dependents, c, order)
      invariant settled == |order|
      decreases |Order(g)| - |order|
    {
      WalkSteps(g, dependents, c, order);
      var id := c.ready[0];
      order := order + [id];
      settled := settled + 1;
      c := Release(id, dependents, Counter(c.remaining, c.ready[1..]));
    }
    WalkEnds(g, dependents, c, order);
    if settled == |stages| {
      return None;
    }
    var unresolved := Unresolved(c.remaining);
    return Some(unresolved);
  }

  // ---------------------------------------------------------------- the acceptance feature

  predicate FeatureChar(c: char) {
    'a' <= c <= 'z' || '0' <= c <= '9'
  }

  /** A lower-case letter or digit, then at most 47 more of them or hyphens. */
  predicate ValidAcceptanceFeature(name: string) {
    && 1 <= |name| <= 48 && FeatureChar(name[0])
    && forall i | 1 <= i < |name| :: FeatureChar(name[i]) || name[i] == '-'
  }

  predicate Composes(stage: PlanStage) {
    stage.executionKind.IntegrationCompose?
  }

  /** Another deterministic integration consumes this stage, directly or through others. */
  ghost predicate FeedsIntegration(stages: seq<PlanStage>, g: Graph, id: Id) {
    exists i :: 0 <= i < |stages| && stages[i].id != id && Composes(stages[i]) && Reaches(g, stages[i].id, id)
  }

  /** `downstreamIntegration`. */
  method DownstreamIntegration(id: Id, stages: seq<PlanStage>, byID: map<Id, PlanStage>) returns (found: bool)
    ensures found <==> FeedsIntegration(stages, IndexGraph(byID), id)
  {
    for i := 0 to |stages|
      invariant forall k | 0 <= k < i && stages[k].id != id && Composes(stages[k]) :: !Reaches(IndexGraph(byID), stages[k].id, id)
    {
      if stages[i].id == id || !Composes(stages[i]) { continue; }
      var depends := DependsOnStageAfresh(stages[i].id, id, byID);
      if depends { return true; }
    }
    return false;
  }

  ghost predicate ValidCarrier(stages: seq<PlanStage>, g: Graph, stage: PlanStage) {
    stage.acceptanceFeature.Some? ==>
      && ValidAcceptanceFeature(stage.acceptanceFeature.value)
      && stage.kind.AgentStage? && Composes(stage)
      && !FeedsIntegration(stages, g, stage.id)
  }

  function Carriers(stages: seq<PlanStage>): nat {
    if stages == [] then 0
    else Carriers(stages[..|stages| - 1]) + if stages[|stages| - 1].acceptanceFeature.Some? then 1 else 0
  }

  ghost predicate ValidFeature(stages: seq<PlanStage>, g: Graph) {
    && (forall i | 0 <= i < |stages| :: ValidCarrier(stages, g, stages[i]))
    && Carriers(stages) <= 1
  }

  /** `validateAcceptanceFeature`: at most one carrier, and it is a final deterministic integration. */
  method ValidateAcceptanceFeature(stages: seq<PlanStage>, byID: map<Id, PlanStage>) returns (ok: bool)
    ensures ok <==> ValidFeature(stages, IndexGraph(byID))
  {
    ghost var g := IndexGraph(byID);
    var carriers := 0;
    for i := 0 to |stages|
      invariant forall k | 0 <= k < i :: ValidCarrier(stages, g, stages[k])
      invariant carriers == Carriers(stages[..i])
    {
      var stage := stages[i];
      assert stages[..i + 1][..i] == stages[..i];
      if stage.acceptanceFeature.None? { continue; }
      carriers := carriers + 1;
      if !ValidAcceptanceFeature(stage.acceptanceFeature.value) { return false; }
      if !stage.kind.AgentStage? || !Composes(stage) { return false; }
      var consumed := DownstreamIntegration(stage.id, stages, byID);
      if consumed { return false; }
    }
    assert stages[..|stages|] == stages;
    return carriers <= 1;
  }

  // ---------------------------------------------------------------- the whole graph

  ghost predicate ValidStageGraph(stages: seq<PlanStage>) {
    && stages != []
    && DistinctStages(stages)
    && (exists byID :: IndexesStages(stages, byID) && forall i | 0 <= i < |stages| :: ValidStage(stages[i], byID))
    && Acyclic(StageGraph(stages))
    && ValidFeature(stages, StageGraph(stages))
  }

  lemma {:induction false} ValidStagesClosed(stages: seq<PlanStage>, byID: map<Id, PlanStage>)
    requires DistinctStages(stages) && IndexesStages(stages, byID)
    requires forall i | 0 <= i < |stages| :: ValidStageDependencies(stages[i], byID)
    ensures Closed(StageGraph(stages))
  {
    IndexedGraph(stages, byID);
    StageGraphEntries(stages);
    var g := StageGraph(stages);
    forall a, d | a in g && d in g[a] ensures d in g {
      var i :| 0 <= i < |stages| && stages[i].id == a;
      assert d in stages[i].dependsOn;
    }
  }

  /** Indexes the stages by id, unless an id repeats. */
  method IndexDistinct(stages: seq<PlanStage>) returns (byID: map<Id, PlanStage>, distinct: bool)
    ensures distinct <==> DistinctStages(stages)
    ensures distinct ==> IndexesStages(stages, byID)
  {
    byID := map[];
    for i := 0 to |stages|
      invariant DistinctStages(stages[..i])
      invariant forall a :: a in byID <==> exists k :: 0 <= k < i && stages[k].id == a
      invariant forall k | 0 <= k < i :: stages[k].id in byID && byID[stages[k].id] == stages[k]
    {
      if stages[i].id in byID { return byID, false; }
      byID := byID[stages[i].id := stages[i]];
    }
    assert stages[..|stages|] == stages;
    distinct := true;
  }

  /** `validateStageGraph`: accepts exactly the valid stage graphs. */
  method ValidateStageGraph(stages: seq<PlanStage>) returns (ok: bool)
    ensures ok <==> ValidStageGraph(stages)
  {
    if |stages| == 0 { return false; }
    var byID, distinct := IndexDistinct(stages);
    if !distinct { return false; }
    for i := 0 to |stages|
      invariant forall k | 0 <= k < i :: ValidStage(stages[k], byID)
    {
      var fine := ValidateStage(stages[i], byID);
      if !fine {
        assert forall other | IndexesStages(stages, other) :: other == byID;
        return false;
      }
    }
    ValidStagesClosed(stages, byID);
    CompleteIffAcyclic(StageGraph(stages));
    StageGraphEntries(stages);
    IndexedGraph(stages, byID);
    var cycle := RefuseCycles(stages);
    if cycle.Some? { return false; }
    ok := ValidateAcceptanceFeature(stages, byID);
  }
}
