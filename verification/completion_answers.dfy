/** What the compiler leaves of each stage it is given, read off the stated stage alone. */
module CompletionAnswers {
  import opened Ids
  import opened Graphs
  import opened Kahn
  import opened Vocabulary
  import opened Plans
  import opened PlanCompiler
  import opened PlanCompilerLaws
  import Obligations

  /** The roles every worker of which must have the capability. */
  ghost predicate FloorOf(capability: Capability, role: Role) {
    match capability
    case RequirementsAnalysis => role == ProductArchitect || role == Planner
    case ArchitectureReasoning => role == SystemArchitect
    case RepositoryAnalysis => role != ProductArchitect && role != Tester && role.UnknownRole? == false
    case CodeChange => role == Implementer || role == Tester || role == Integrator
    case Verification => role == Tester
    case SecurityReview => role == SecurityReviewer
    case UnknownCapability(_) => false
  }

  function Rank(capability: Capability): int {
    match capability
    case RequirementsAnalysis => 1
    case ArchitectureReasoning => 2
    case RepositoryAnalysis => 3
    case CodeChange => 4
    case Verification => 5
    case SecurityReview => 6
    case UnknownCapability(_) => 0
  }

  /** The known capabilities a worker stated and those its role requires, each once, in the ontology's order. */
  ghost predicate HasFloor(stated: PlanStage, completed: PlanStage) {
    && (forall c :: c in completed.requiresCapabilities <==>
          (c in stated.requiresCapabilities && Rank(c) > 0) || (stated.role.Some? && FloorOf(c, stated.role.value)))
    && forall i, j | 0 <= i < j < |completed.requiresCapabilities| ::
         Rank(completed.requiresCapabilities[i]) < Rank(completed.requiresCapabilities[j])
  }

  /** A stated mode stays; without one the planner must not write and every other worker may. */
  ghost predicate HasMode(stated: PlanStage, completed: PlanStage) {
    if stated.invocationMode.Some? then completed.invocationMode == stated.invocationMode
    else if stated.role == Some(Planner) then completed.invocationMode == Some(NonMutatingPlanning)
    else completed.invocationMode == Some(Mutating)
  }

  /** Independence keeps its dimension, its permission and any peers it states. */
  ghost predicate KeepsIndependence(stated: PlanStage, completed: PlanStage) {
    match stated.independence
    case None => completed.independence == None
    case Some(i) =>
      && completed.independence.Some?
      && completed.independence.value.dimension == i.dimension
      && completed.independence.value.humanSubstitutionPermitted == i.humanSubstitutionPermitted
      && (i.differentFrom != [] ==> completed.independence.value.differentFrom == i.differentFrom)
  }

  /** The stated dependencies in their order, followed by the peers that were not among them, each once. */
  ghost predicate DependsAfter(stated: PlanStage, completed: PlanStage) {
    var n := |stated.dependsOn|;
    && |completed.dependsOn| >= n && completed.dependsOn[..n] == stated.dependsOn
    && Distinct(completed.dependsOn[n..])
    && forall d :: d in completed.dependsOn[n..] <==>
         d !in stated.dependsOn && completed.independence.Some? && d in completed.independence.value.differentFrom
  }

  lemma {:induction false} AmongOrdered(ontology: seq<Capability>, held: seq<Capability>)
    requires forall i, j | 0 <= i < j < |ontology| :: Rank(ontology[i]) < Rank(ontology[j])
    ensures forall i, j | 0 <= i < j < |Among(ontology, held)| :: Rank(Among(ontology, held)[i]) < Rank(Among(ontology, held)[j])
  {
    if ontology != [] {
      var rest := Among(ontology[1..], held);
      AmongOrdered(ontology[1..], held);
      forall j | 0 <= j < |rest| ensures Rank(ontology[0]) < Rank(rest[j]) {
        Obligations.AmongExactly(ontology[1..], held, rest[j]);
        assert rest[j] in rest;
        var k :| 0 <= k < |ontology| - 1 && ontology[1..][k] == rest[j];
        assert ontology[k + 1] == rest[j];
      }
    }
  }

  lemma {:induction false} FloorMerged(existing: seq<Capability>, role: Option<Role>, c: Capability)
    ensures c in MergeCapabilities(existing, RoleCapabilities(role)) <==>
              (c in existing && Rank(c) > 0) || (role.Some? && FloorOf(c, role.value))
  {
    var ontology := [RequirementsAnalysis, ArchitectureReasoning, RepositoryAnalysis, CodeChange, Verification, SecurityReview];
    Obligations.AmongExactly(ontology, existing + RoleCapabilities(role), c);
    assert c in existing + RoleCapabilities(role) <==> c in existing || c in RoleCapabilities(role);
    assert c in ontology <==> Rank(c) > 0;
  }

  lemma {:induction false} ConsDistinct(x: Id, s: seq<Id>)
    requires Distinct(s) && x !in s
    ensures Distinct([x] + s)
  {
  }

  lemma {:induction false} WithPeersAfter(dependencies: seq<Id>, peers: seq<Id>)
    ensures |WithPeers(dependencies, peers)| >= |dependencies|
    ensures WithPeers(dependencies, peers)[..|dependencies|] == dependencies
    ensures Distinct(WithPeers(dependencies, peers)[|dependencies|..])
    ensures forall d :: d in WithPeers(dependencies, peers)[|dependencies|..] <==> d !in dependencies && d in peers
    decreases |peers|
  {
    var n := |dependencies|;
    if peers != [] {
      var more := if peers[0] in dependencies then dependencies else dependencies + [peers[0]];
      WithPeersAfter(more, peers[1..]);
      var r := WithPeers(dependencies, peers);
      assert forall d :: d in peers <==> d == peers[0] || d in peers[1..];
      if peers[0] !in dependencies {
        assert r[..n] == r[..n + 1][..n];
        assert r[n..] == [peers[0]] + r[n + 1..];
        assert r[n] == r[..n + 1][n];
        assert peers[0] in more;
        ConsDistinct(peers[0], r[n + 1..]);
      }
    }
  }

  /** A worker after completion, field by field: nothing else about it changes. */
  lemma {:induction false} WorkerCompleted(stages: seq<PlanStage>, claims: seq<Id>, i: nat)
    requires i < |stages| && stages[i].kind.AgentStage?
    ensures var stated, completed := stages[i], Completed(stages, claims)[i];
            && HasFloor(stated, completed) && HasMode(stated, completed)
            && KeepsIndependence(stated, completed) && DependsAfter(stated, completed)
            && completed == stated.(requiresCapabilities := completed.requiresCapabilities, invocationMode := completed.invocationMode,
                                    independence := completed.independence, dependsOn := completed.dependsOn)
  {
    EarlierUntouched(stages, claims, i, |stages|);
    var stated, completed := stages[i], Completed(stages, claims)[i];
    AmongOrdered([RequirementsAnalysis, ArchitectureReasoning, RepositoryAnalysis, CodeChange, Verification, SecurityReview],
                 stated.requiresCapabilities + RoleCapabilities(stated.role));
    forall c ensures c in completed.requiresCapabilities <==>
                       (c in stated.requiresCapabilities && Rank(c) > 0) || (stated.role.Some? && FloorOf(c, stated.role.value)) {
      FloorMerged(stated.requiresCapabilities, stated.role, c);
    }
    if completed.independence.Some? { WithPeersAfter(stated.dependsOn, completed.independence.value.differentFrom); }
  }

  /** A gate after completion: one for assurance that has no claims yet asks for the contract's; nothing else changes. */
  lemma {:induction false} GateCompleted(stages: seq<PlanStage>, claims: seq<Id>, i: nat)
    requires i < |stages| && !stages[i].kind.AgentStage?
    ensures Completed(stages, claims)[i] ==
              if stages[i].kind == AssuranceGate && |stages[i].requiredClaims| == 0 then stages[i].(requiredClaims := claims) else stages[i]
  {
    EarlierUntouched(stages, claims, i, |stages|);
  }

  /** The roles whose work is the change under review. */
  ghost predicate Makes(role: Option<Role>) {
    role == Some(Implementer) || role == Some(Tester) || role == Some(Integrator)
  }

  ghost predicate MakesTheChange(stage: PlanStage) {
    stage.kind == AgentStage && Makes(stage.role)
  }

  /** Completion refuses exactly the plans in which a worker that makes the change asks to differ from nobody in particular. */
  lemma RefusedExactly(stages: seq<PlanStage>, i: nat)
    requires i < |stages|
    ensures Ambiguous(stages[i]) <==>
              MakesTheChange(stages[i]) && stages[i].independence.Some? && |stages[i].independence.value.differentFrom| == 0
    ensures IsProducer(stages[i]) <==> MakesTheChange(stages[i])
  {
  }

  /** The canonical form lists every stage whole, only its dependencies sorted; a list that cannot be ordered stays as it is. */
  lemma {:induction false} CanonicalKeepsStages(stages: seq<PlanStage>, k: nat)
    requires Orderable(stages) && k < |Order(StageGraph(stages))|
    ensures exists i :: 0 <= i < |stages| && stages[i].id == Order(StageGraph(stages))[k]
              && Canonical(stages)[k] == stages[i].(dependsOn := Canonical(stages)[k].dependsOn)
              && Ascending(Canonical(stages)[k].dependsOn) && multiset(Canonical(stages)[k].dependsOn) == multiset(stages[i].dependsOn)
  {
    var a := Order(StageGraph(stages))[k];
    StageGraphEntries(stages);
    OrderLength(StageGraph(stages));
    assert IsStage(stages, a);
    var i :| 0 <= i < |stages| && stages[i].id == a;
    StageOfExactly(stages, i);
    SortSorts(stages[i].dependsOn);
  }

  /** Repeated ids, a dangling dependency or a cycle: the list stays as it is. */
  lemma {:induction false} UnorderableStays(stages: seq<PlanStage>)
    requires
      || (exists i, j :: 0 <= i < j < |stages| && stages[i].id == stages[j].id)
      || (exists i, d :: 0 <= i < |stages| && d in stages[i].dependsOn && !IsStage(stages, d))
      || (exists a :: Reaches(StageGraph(stages), a, a))
    ensures Canonical(stages) == stages
  {
    if DistinctStages(stages) {
      StageGraphEntries(stages);
      if i, d :| 0 <= i < |stages| && d in stages[i].dependsOn && !IsStage(stages, d) {
        assert d in Deps(StageGraph(stages), stages[i].id);
      }
    }
  }
}
