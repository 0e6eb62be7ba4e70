/**
  Plan stages and the plans they make up.

  A stage is a worker, an assurance gate or a human decision gate. The graph laws see only
  its id and what it depends on; the other fields are read by the compiler, the validator,
  the ratchet and the resolver.
 */
module Plans {
  import opened Ids
  import opened Graphs
  import opened Vocabulary

  datatype StageKind = AgentStage | AssuranceGate | HumanDecisionGate | UnknownKind(name: Id)

  /** A bound of zero or less is an absent bound, as in the source. */
  datatype StageBudget = StageBudget(maxExecutionAttempts: int, maxProviderInvocations: int, maxWallSeconds: int)

  datatype PlanStage = PlanStage(
    id: Id,
    kind: StageKind,
    role: Option<Role>,
    executionKind: ExecutionKind,
    acceptanceFeature: Option<string>,
    dependsOn: seq<Id>,
    requiresCapabilities: seq<Capability>,
    independence: Option<Independence>,
    trust: Trust,
    invocationMode: Option<InvocationMode>,
    profile: Option<Id>,
    contextPolicy: Option<Id>,
    requiredClaims: seq<Id>,
    action: Option<Action>,
    substitutesRole: Option<Role>,
    budget: StageBudget)

  /** What the graph laws see of a stage list. */
  function StageNodes(stages: seq<PlanStage>): (nodes: seq<Node>)
    ensures |nodes| == |stages|
    ensures forall i | 0 <= i < |stages| :: nodes[i] == Node(stages[i].id, stages[i].dependsOn)
  {
    seq(|stages|, i requires 0 <= i < |stages| => Node(stages[i].id, stages[i].dependsOn))
  }

  function StageGraph(stages: seq<PlanStage>): Graph {
    GraphOf(StageNodes(stages))
  }

  ghost predicate DistinctStages(stages: seq<PlanStage>) {
    forall i, j | 0 <= i < j < |stages| :: stages[i].id != stages[j].id
  }

  ghost predicate IsStage(stages: seq<PlanStage>, id: Id) {
    exists i :: 0 <= i < |stages| && stages[i].id == id
  }

  lemma {:induction false} StageGraphEntries(stages: seq<PlanStage>)
    requires DistinctStages(stages)
    ensures DistinctIds(StageNodes(stages))
    ensures forall i | 0 <= i < |stages| :: stages[i].id in StageGraph(stages) && StageGraph(stages)[stages[i].id] == stages[i].dependsOn
    ensures forall a :: a in StageGraph(stages) <==> IsStage(stages, a)
    ensures |StageGraph(stages)| == |stages|
  {
    var nodes := StageNodes(stages);
    GraphOfNodes(nodes);
    forall i | 0 <= i < |stages| ensures stages[i].id in StageGraph(stages) && StageGraph(stages)[stages[i].id] == stages[i].dependsOn {
      assert nodes[i] in nodes;
    }
    forall a | a in StageGraph(stages) ensures IsStage(stages, a) {
      var i :| 0 <= i < |nodes| && nodes[i] == Node(a, GraphOf(nodes)[a]);
      assert stages[i].id == a;
    }
  }

  /** The material producers, ascending. */
  function MaterialProducers(stages: seq<PlanStage>): (producers: seq<Id>) {
    Sort(ProducerIds(stages))
  }

  predicate IsProducer(stage: PlanStage) {
    stage.kind.AgentStage? && stage.role.Some? && ProducesMaterialChange(stage.role.value)
  }

  function ProducerIds(stages: seq<PlanStage>): (ids: seq<Id>) {
    if stages == [] then []
    else ProducerIds(stages[..|stages| - 1]) + if IsProducer(stages[|stages| - 1]) then [stages[|stages| - 1].id] else []
  }

  lemma {:induction false} ProducerIdsExactly(stages: seq<PlanStage>, id: Id)
    ensures id in ProducerIds(stages) <==> exists i :: 0 <= i < |stages| && stages[i].id == id && IsProducer(stages[i])
  {
    if stages != [] {
      var n := |stages| - 1;
      ProducerIdsExactly(stages[..n], id);
      if id in ProducerIds(stages[..n]) {
        var i :| 0 <= i < n && stages[..n][i].id == id && IsProducer(stages[..n][i]);
        assert stages[i].id == id && IsProducer(stages[i]);
      }
      if i :| 0 <= i < n && stages[i].id == id && IsProducer(stages[i]) {
        assert stages[..n][i].id == id && IsProducer(stages[..n][i]);
      }
    }
  }

  lemma {:induction false} MaterialProducersExactly(stages: seq<PlanStage>, id: Id)
    ensures id in MaterialProducers(stages) <==> exists i :: 0 <= i < |stages| && stages[i].id == id && IsProducer(stages[i])
  {
    SortSorts(ProducerIds(stages));
    ProducerIdsExactly(stages, id);
  }

  /** What an index of the stages answers for an id it does not hold. */
  const NO_STAGE := PlanStage(0, UnknownKind(0), None, DefaultExecution, None, [], [], None, Unstated, None, None, None, [], None, None, StageBudget(0, 0, 0))

  function StageOf(stages: seq<PlanStage>, id: Id): PlanStage {
    if stages == [] then NO_STAGE
    else if stages[0].id == id then stages[0]
    else StageOf(stages[1..], id)
  }

  lemma {:induction false} StageOfExactly(stages: seq<PlanStage>, i: nat)
    requires DistinctStages(stages) && i < |stages|
    ensures StageOf(stages, stages[i].id) == stages[i]
  {
    if i > 0 { StageOfExactly(stages[1..], i - 1); }
  }

  function StageIds(stages: seq<PlanStage>): set<Id> {
    set i | 0 <= i < |stages| :: stages[i].id
  }

  lemma {:induction false} StageIdsGrow(stages: seq<PlanStage>)
    requires stages != []
    ensures StageIds(stages) == StageIds(stages[..|stages| - 1]) + {stages[|stages| - 1].id}
    ensures stages[|stages| - 1].id in StageIds(stages[..|stages| - 1]) <==>
              exists i :: 0 <= i < |stages| - 1 && stages[i].id == stages[|stages| - 1].id
  {
    var n := |stages| - 1;
    forall i | 0 <= i < n ensures stages[i].id in StageIds(stages[..n]) { assert stages[..n][i].id == stages[i].id; }
    forall a | a in StageIds(stages[..n]) ensures exists i :: 0 <= i < n && stages[i].id == a {
      var i :| 0 <= i < n && stages[..n][i].id == a;
      assert stages[i].id == a;
    }
  }

  /** There are as many ids as stages exactly when no id repeats. */
  lemma {:induction false} IdsCollapse(stages: seq<PlanStage>)
    ensures |StageIds(stages)| <= |stages|
    ensures |StageIds(stages)| == |stages| <==> DistinctStages(stages)
  {
    if stages == [] {
      assert StageIds(stages) == {};
    } else {
      var n := |stages| - 1;
      IdsCollapse(stages[..n]);
      StageIdsGrow(stages);
      if stages[n].id !in StageIds(stages[..n]) {
        assert DistinctStages(stages) <==> DistinctStages(stages[..n]) by {
          if DistinctStages(stages[..n]) {
            forall i, j | 0 <= i < j < |stages| ensures stages[i].id != stages[j].id {
              if j < n { assert stages[..n][i].id != stages[..n][j].id; }
            }
          }
        }
      }
    }
  }
}
