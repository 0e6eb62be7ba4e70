/** The deterministic plan compiler: completing what stages leave unsaid, and the canonical order. */
module PlanCompiler {
  import opened Ids
  import opened Graphs
  import opened Kahn
  import opened Vocabulary
  import opened Plans
  import opened Reachability

  // ---------------------------------------------------------------- completion

  /** The producers a stage may still be bound to: not itself, and none already downstream of it. */
  ghost function Bindable(g: Graph, self: Id, producers: seq<Id>): seq<Id> {
    if producers == [] then []
    else
      var n := |producers| - 1;
      var last := producers[n];
      Bindable(g, self, producers[..n]) + if last == self || Reaches(g, last, self) then [] else [last]
  }

  lemma {:induction false} BindableExactly(g: Graph, self: Id, producers: seq<Id>, p: Id)
    ensures p in Bindable(g, self, producers) <==> p in producers && p != self && !Reaches(g, p, self)
  {
    if producers != [] {
      var n := |producers| - 1;
      BindableExactly(g, self, producers[..n], p);
      assert producers == producers[..n] + [producers[n]];
    }
  }

  ghost function ProducersFor(stages: seq<PlanStage>, self: Id): seq<Id> {
    Bindable(StageGraph(stages), self, MaterialProducers(stages))
  }

  /** `producersExcept`. */
  method ProducersExcept(stages: seq<PlanStage>, self: Id) returns (producers: seq<Id>)
    ensures producers == ProducersFor(stages, self)
  {
    var dependsOn := StageGraph(stages);
    var all := MaterialProducers(stages);
    producers := [];
    for i := 0 to |all|
      invariant producers == Bindable(dependsOn, self, all[..i])
    {
      assert all[..i + 1][..i] == all[..i];
      if all[i] == self { continue; }
      var downstream := ReachesSearch(dependsOn, all[i], self);
      if downstream { continue; }
      producers := producers + [all[i]];
    }
    assert all[..|all|] == all;
  }

  /** The dependencies followed by the peers they lack. */
  function WithPeers(dependencies: seq<Id>, peers: seq<Id>): seq<Id>
    decreases |peers|
  {
    if peers == [] then dependencies
    else WithPeers(if peers[0] in dependencies then dependencies else dependencies + [peers[0]], peers[1..])
  }

  lemma {:induction false} WithPeersExactly(dependencies: seq<Id>, peers: seq<Id>, d: Id)
    ensures d in WithPeers(dependencies, peers) <==> d in dependencies || d in peers
    decreases |peers|
  {
    if peers != [] {
      WithPeersExactly(if peers[0] in dependencies then dependencies else dependencies + [peers[0]], peers[1..], d);
    }
  }

  lemma {:induction false} WithPeersDistinct(dependencies: seq<Id>, peers: seq<Id>)
    requires Distinct(dependencies)
    ensures Distinct(WithPeers(dependencies, peers))
    decreases |peers|
  {
    if peers != [] {
      WithPeersDistinct(if peers[0] in dependencies then dependencies else dependencies + [peers[0]], peers[1..]);
    }
  }

  /** `withIndependencePeers`. */
  method WithIndependencePeers(dependencies: seq<Id>, peers: seq<Id>) returns (r: seq<Id>)
    ensures r == WithPeers(dependencies, peers)
  {
    var present := Elements(dependencies);
    r := dependencies;
    assert peers[0..] == peers;
    for i := 0 to |peers|
      invariant present == Elements(r)
      invariant WithPeers(r, peers[i..]) == WithPeers(dependencies, peers)
    {
      assert peers[i..][1..] == peers[i + 1..];
      assert peers[i] in present <==> peers[i] in r;
      if peers[i] in present { continue; }
      present := present + {peers[i]};
      r := r + [peers[i]];
    }
  }

  /** The capabilities of either list, in the ontology's order. */
  function MergeCapabilities(existing: seq<Capability>, added: seq<Capability>): seq<Capability> {
    Among([RequirementsAnalysis, ArchitectureReasoning, RepositoryAnalysis, CodeChange, Verification, SecurityReview], existing + added)
  }

  function Among(ontology: seq<Capability>, held: seq<Capability>): seq<Capability> {
    if ontology == [] then []
    else (if ontology[0] in held then [ontology[0]] else []) + Among(ontology[1..], held)
  }

  /** The capability floor of a role. */
  function RoleCapabilities(role: Option<Role>): seq<Capability> {
    if role.None? then [] else
      match role.value
      case ProductArchitect => [RequirementsAnalysis]
      case SystemArchitect => [ArchitectureReasoning, RepositoryAnalysis]
      case Planner => [RequirementsAnalysis, RepositoryAnalysis]
      case Implementer => [RepositoryAnalysis, CodeChange]
      case Tester => [CodeChange, Verification]
      case SecurityReviewer => [RepositoryAnalysis, SecurityReview]
      case Reviewer => [RepositoryAnalysis]
      case Integrator => [RepositoryAnalysis, CodeChange]
      case ReleaseReviewer => [RepositoryAnalysis]
      case UnknownRole(_) => []
  }

  function RequiredInvocationMode(role: Option<Role>): InvocationMode {
    if role == Some(Planner) then NonMutatingPlanning else Mutating
  }

  predicate Shorthand(stage: PlanStage) {
    stage.independence.Some? && stage.independence.value.differentFrom == []
  }

  /** A producing worker that leaves its peers unsaid: completion refuses the plan. */
  predicate Ambiguous(stage: PlanStage) {
    stage.kind.AgentStage? && Shorthand(stage) && stage.role.Some? && ProducesMaterialChange(stage.role.value)
  }

  /** One stage completed against the stage list as it stands when its turn comes. */
  ghost function CompleteStage(stages: seq<PlanStage>, stage: PlanStage, claims: seq<Id>): PlanStage {
    if !stage.kind.AgentStage? then
      if stage.kind.AssuranceGate? && stage.requiredClaims == [] then stage.(requiredClaims := claims) else stage
    else
      var bound :=
        if Shorthand(stage) then Some(stage.independence.value.(differentFrom := ProducersFor(stages, stage.id)))
        else stage.independence;
      stage.(
        requiresCapabilities := MergeCapabilities(stage.requiresCapabilities, RoleCapabilities(stage.role)),
        independence := bound,
        dependsOn := if bound.Some? then WithPeers(stage.dependsOn, bound.value.differentFrom) else stage.dependsOn,
        invocationMode := if stage.invocationMode.None? then Some(RequiredInvocationMode(stage.role)) else stage.invocationMode)
  }

  /** The stage list when the first `n` stages have been completed. */
  ghost function CompletedTo(stages: seq<PlanStage>, claims: seq<Id>, n: nat): (r: seq<PlanStage>)
    requires n <= |stages|
    ensures |r| == |stages|
  {
    if n == 0 then stages
    else
      var before := CompletedTo(stages, claims, n - 1);
      before[n - 1 := CompleteStage(before, before[n - 1], claims)]
  }

  lemma {:induction false} LaterUntouched(stages: seq<PlanStage>, claims: seq<Id>, n: nat, i: nat)
    requires n <= i < |stages|
    ensures CompletedTo(stages, claims, n)[i] == stages[i]
  {
    if n > 0 { LaterUntouched(stages, claims, n - 1, i); }
  }

  /** `fillStageDefaults`, rewriting the stage list in place as it ranges over it. */
  method FillStageDefaults(stages: array<PlanStage>, claims: seq<Id>) returns (ok: bool)
    modifies stages
    ensures ok <==> forall i | 0 <= i < stages.Length :: !Ambiguous(old(stages[..])[i])
    ensures ok ==> stages[..] == CompletedTo(old(stages[..]), claims, stages.Length)
  {
    ghost var stated := stages[..];
    for i := 0 to stages.Length
      invariant stages[..] == CompletedTo(stated, claims, i)
      invariant forall k | 0 <= k < i :: !Ambiguous(stated[k])
    {
      LaterUntouched(stated, claims, i, i);
      ghost var before := stages[..];
      var stage := stages[i];
      assert stage == stated[i] == before[i];
      if !stage.kind.AgentStage? {
        if stage.kind.AssuranceGate? && |stage.requiredClaims| == 0 {
          stage := stage.(requiredClaims := claims);
        }
        stages[i] := stage;
        assert stages[..] == before[i := stage];
        continue;
      }
      stage := stage.(requiresCapabilities := MergeCapabilities(stage.requiresCapabilities, RoleCapabilities(stage.role)));
      if stage.independence.Some? && |stage.independence.value.differentFrom| == 0 {
        if stage.role.Some? && ProducesMaterialChange(stage.role.value) {
          return false;
        }
        var producers := ProducersExcept(stages[..], stage.id);
        stage := stage.(independence := Some(stage.independence.value.(differentFrom := producers)));
      }
      if stage.independence.Some? {
        var dependsOn := WithIndependencePeers(stage.dependsOn, stage.independence.value.differentFrom);
        stage := stage.(dependsOn := dependsOn);
      }
      if stage.invocationMode.None? {
        stage := stage.(invocationMode := Some(RequiredInvocationMode(stage.role)));
      }
      assert stage == CompleteStage(before, before[i], claims);
      stages[i] := stage;
      assert stages[..] == before[i := stage];
    }
    return true;
  }

  // ---------------------------------------------------------------- canonical order

  /** A stage list the canonical order can order: distinct ids, no dangling dependency, no cycle. */
  ghost predicate Orderable(stages: seq<PlanStage>) {
    DistinctStages(stages) && Closed(StageGraph(stages)) && Acyclic(StageGraph(stages))
  }

  function Tidied(stage: PlanStage): PlanStage {
    stage.(dependsOn := Sort(stage.dependsOn))
  }

  /** The stages of an order, each with its dependencies ascending. */
  function InOrder(stages: seq<PlanStage>, order: seq<Id>): (r: seq<PlanStage>)
    ensures |r| == |order|
    ensures forall k | 0 <= k < |order| :: r[k] == Tidied(StageOf(stages, order[k]))
  {
    seq(|order|, k requires 0 <= k < |order| => Tidied(StageOf(stages, order[k])))
  }

  /** The canonical form; a list that cannot be ordered is its own. */
  ghost function Canonical(stages: seq<PlanStage>): seq<PlanStage> {
    if Orderable(stages) then InOrder(stages, Order(StageGraph(stages))) else stages
  }

  /** The map the compiler indexes stages by; a repeated id keeps its last stage. */
  ghost predicate Holds(stages: seq<PlanStage>, byID: map<Id, PlanStage>) {
    && (forall a :: a in byID <==> IsStage(stages, a))
    && (DistinctStages(stages) ==> forall k | 0 <= k < |stages| :: stages[k].id in byID && byID[stages[k].id] == stages[k])
  }

  method IndexStages(stages: seq<PlanStage>) returns (byID: map<Id, PlanStage>)
    ensures Holds(stages, byID)
  {
    byID := map[];
    for i := 0 to |stages|
      invariant forall a :: a in byID <==> exists k :: 0 <= k < i && stages[k].id == a
      invariant DistinctStages(stages) ==> forall k | 0 <= k < i :: byID[stages[k].id] == stages[k]
    {
      byID := byID[stages[i].id := stages[i]];
    }
  }

  /** `canonicalOrder`. */
  method CanonicalOrder(stages: seq<PlanStage>) returns (ordered: seq<PlanStage>)
    ensures ordered == Canonical(stages)
  {
    var byID := IndexStages(stages);
    var dangling := Dangling(stages, byID);
    if dangling {
      return stages;
    }
    ghost var order: seq<Id>;
    order, ordered := WalkStages(stages, byID);
    WalkedAll(stages, byID, order, ordered);
    if |ordered| != |stages| {
      return stages;
    }
    for i := 0 to |ordered|
      invariant |ordered| == |order|
      invariant forall k | 0 <= k < i :: ordered[k] == Tidied(StageOf(stages, order[k]))
      invariant forall k | i <= k < |order| :: ordered[k] == StageOf(stages, order[k])
    {
      ordered := ordered[i := ordered[i].(dependsOn := Sort(ordered[i].dependsOn))];
    }
    assert ordered == InOrder(stages, order);
  }

  lemma {:induction false} WalkedAll(stages: seq<PlanStage>, byID: map<Id, PlanStage>, order: seq<Id>, ordered: seq<PlanStage>)
    requires Holds(stages, byID) && Passed(byID, order, ordered) && |order| <= |byID|
    requires DistinctStages(stages) ==> Closed(StageGraph(stages)) && order == Order(StageGraph(stages))
    ensures |ordered| == |stages| <==> Orderable(stages)
    ensures Orderable(stages) ==> forall k | 0 <= k < |order| :: ordered[k] == StageOf(stages, order[k])
  {
    IdsCollapse(stages);
    assert byID.Keys == StageIds(stages);
    if DistinctStages(stages) {
      StageGraphEntries(stages);
      CompleteIffAcyclic(StageGraph(stages));
      Lookups(stages, byID, order);
    }
  }

  /** Whether some stage depends on one that does not exist. */
  method Dangling(stages: seq<PlanStage>, byID: map<Id, PlanStage>) returns (found: bool)
    requires Holds(stages, byID)
    ensures DistinctStages(stages) ==> (found <==> !Closed(StageGraph(stages)))
  {
    if DistinctStages(stages) { StageGraphEntries(stages); }
    for i := 0 to |stages|
      invariant forall k, d | 0 <= k < i && d in stages[k].dependsOn :: d in byID
    {
      for j := 0 to |stages[i].dependsOn|
        invariant forall d | d in stages[i].dependsOn[..j] :: d in byID
      {
        if stages[i].dependsOn[j] !in byID {
          assert stages[i].dependsOn[j] in stages[i].dependsOn;
          return true;
        }
      }
      assert stages[i].dependsOn[..|stages[i].dependsOn|] == stages[i].dependsOn;
    }
    return false;
  }

  ghost predicate Passed(byID: map<Id, PlanStage>, order: seq<Id>, ordered: seq<PlanStage>) {
    |ordered| == |order| && forall k | 0 <= k < |order| :: order[k] in byID && ordered[k] == byID[order[k]]
  }

  lemma {:induction false} PassedOne(byID: map<Id, PlanStage>, order: seq<Id>, ordered: seq<PlanStage>, id: Id)
    requires Passed(byID, order, ordered) && id in byID
    ensures Passed(byID, order + [id], ordered + [byID[id]])
  {
  }

  /** What the walk maintains: its queue always, and the deterministic order when ids are distinct. */
  ghost predicate Going(stages: seq<PlanStage>, ids: set<Id>, dependents: map<Id, seq<Id>>, c: Counter, order: seq<Id>) {
    && c.remaining.Keys == ids
    && (forall d, a | a in Deps(dependents, d) :: a in ids)
    && Queued(c, order)
    && (DistinctStages(stages) ==> Walking(StageGraph(stages), dependents, c, order))
  }

  lemma {:induction false} GoingSteps(stages: seq<PlanStage>, ids: set<Id>, dependents: map<Id, seq<Id>>, c: Counter, order: seq<Id>)
    requires Going(stages, ids, dependents, c, order) && c.ready != []
    ensures c.ready[0] in ids
    ensures Going(stages, ids, dependents, CountedDown(Counter(c.remaining, c.ready[1..]), Sort(Deps(dependents, c.ready[0]))), order + [c.ready[0]])
    ensures |order| < |ids|
  {
    if DistinctStages(stages) { WalkSteps(StageGraph(stages), dependents, c, order); }
    QueueSteps(dependents, c, order);
    assert c.ready[0] in order + c.ready;
    assert |c.remaining| == |c.remaining.Keys|;
  }

  /** The walk itself: how far it gets, and the stages it passes. */
  method WalkStages(stages: seq<PlanStage>, byID: map<Id, PlanStage>) returns (ghost order: seq<Id>, ordered: seq<PlanStage>)
    requires Holds(stages, byID)
    ensures Passed(byID, order, ordered) && |order| <= |byID|
    ensures DistinctStages(stages) ==> order == Order(StageGraph(stages))
  {
    var remaining, dependents := CountDependencies(StageNodes(stages));
    var ready := InitialReady(remaining);
    var c := Counter(remaining, ready);
    order, ordered := [], [];
    GoingStarts(stages, byID, dependents, c);
    while |c.ready| > 0
      invariant Going(stages, byID.Keys, dependents, c, order)
      invariant Passed(byID, order, ordered)
      decreases |byID.Keys| - |order|
    {
      GoingSteps(stages, byID.Keys, dependents, c, order);
      var id := c.ready[0];
      PassedOne(byID, order, ordered, id);
      order, ordered := order + [id], ordered + [byID[id]];
      c := Release(id, dependents, Counter(c.remaining, c.ready[1..]));
    }
    GoingEnds(stages, byID.Keys, dependents, c, order);
  }

  lemma {:induction false} GoingStarts(stages: seq<PlanStage>, byID: map<Id, PlanStage>, dependents: map<Id, seq<Id>>, c: Counter)
    requires Holds(stages, byID) && CountsOnly(StageNodes(stages), c.remaining, dependents)
    requires DistinctIds(StageNodes(stages)) ==>
               CountsMatch(StageGraph(stages), {}, c.remaining) && DependentsMatch(StageGraph(stages), dependents)
    requires c.ready == Listing(Zero(c.remaining))
    ensures Going(stages, byID.Keys, dependents, c, [])
  {
    assert c.remaining.Keys == byID.Keys;
    QueueStarts(c);
    if DistinctStages(stages) {
      StageGraphEntries(stages);
      WalkStarts(StageGraph(stages), dependents, c);
    }
  }

  lemma {:induction false} GoingEnds(stages: seq<PlanStage>, ids: set<Id>, dependents: map<Id, seq<Id>>, c: Counter, order: seq<Id>)
    requires Going(stages, ids, dependents, c, order) && c.ready == []
    ensures |order| <= |ids|
    ensures DistinctStages(stages) ==> order == Order(StageGraph(stages))
  {
    if DistinctStages(stages) { WalkEnds(StageGraph(stages), dependents, c, order); }
    assert order + c.ready == order;
    DistinctFits(order, ids);
  }

  lemma {:induction false} Lookups(stages: seq<PlanStage>, byID: map<Id, PlanStage>, order: seq<Id>)
    requires DistinctStages(stages) && Holds(stages, byID)
    requires forall k | 0 <= k < |order| :: order[k] in byID
    ensures forall k | 0 <= k < |order| :: byID[order[k]] == StageOf(stages, order[k])
  {
    forall k | 0 <= k < |order| ensures byID[order[k]] == StageOf(stages, order[k]) {
      assert IsStage(stages, order[k]);
      var i :| 0 <= i < |stages| && stages[i].id == order[k];
      StageOfExactly(stages, i);
    }
  }
}
