/** What completing a plan keeps: binding independence to producers never makes a cycle, and leaves none out needlessly. */
module PlanCompilerLaws {
  import opened Ids
  import opened Graphs
  import opened Kahn
  import opened Vocabulary
  import opened Plans
  import opened Reachability
  import opened Completion
  import opened PlanCompiler
  import StageGraphs
  import WorkGraphs

  lemma {:induction false} GraphUpdated(nodes: seq<Node>, i: nat, node: Node)
    requires DistinctIds(nodes) && i < |nodes| && node.id == nodes[i].id
    ensures GraphOf(nodes[i := node]) == GraphOf(nodes)[node.id := node.dependsOn]
  {
    var n := |nodes| - 1;
    if i == n {
      assert nodes[i := node][..n] == nodes[..n];
    } else {
      assert nodes[i := node][..n] == nodes[..n][i := node];
      GraphUpdated(nodes[..n], i, node);
    }
  }

  lemma {:induction false} StageGraphUpdated(stages: seq<PlanStage>, i: nat, stage: PlanStage)
    requires DistinctStages(stages) && i < |stages| && stage.id == stages[i].id
    ensures DistinctStages(stages[i := stage])
    ensures StageGraph(stages[i := stage]) == StageGraph(stages)[stage.id := stage.dependsOn]
  {
    var node := Node(stage.id, stage.dependsOn);
    assert StageNodes(stages[i := stage]) == StageNodes(stages)[i := node];
    GraphUpdated(StageNodes(stages), i, node);
  }

  /** Completion never changes what a stage is. */
  ghost predicate SameShape(a: PlanStage, b: PlanStage) {
    a.id == b.id && a.kind == b.kind && a.role == b.role && a.executionKind == b.executionKind &&
    a.trust == b.trust && a.acceptanceFeature == b.acceptanceFeature
  }

  lemma {:induction false} CompletionShape(stages: seq<PlanStage>, claims: seq<Id>, n: nat)
    requires n <= |stages|
    ensures forall i | 0 <= i < |stages| :: SameShape(CompletedTo(stages, claims, n)[i], stages[i])
  {
    if n > 0 { CompletionShape(stages, claims, n - 1); }
  }

  lemma {:induction false} SameProducers(a: seq<PlanStage>, b: seq<PlanStage>)
    requires |a| == |b| && forall i | 0 <= i < |a| :: a[i].id == b[i].id && a[i].kind == b[i].kind && a[i].role == b[i].role
    ensures ProducerIds(a) == ProducerIds(b)
  {
    if a != [] { SameProducers(a[..|a| - 1], b[..|b| - 1]); }
  }

  lemma {:induction false} CompletedAt(stages: seq<PlanStage>, claims: seq<Id>, i: nat)
    requires i < |stages|
    ensures CompletedTo(stages, claims, i + 1)
         == CompletedTo(stages, claims, i)[i := CompleteStage(CompletedTo(stages, claims, i), stages[i], claims)]
  {
    LaterUntouched(stages, claims, i, i);
  }

  /** The peers completion makes dependencies of a stage. */
  ghost function PeersOf(before: seq<PlanStage>, stage: PlanStage): seq<Id> {
    if !stage.kind.AgentStage? || stage.independence.None? then []
    else if Shorthand(stage) then ProducersFor(before, stage.id)
    else stage.independence.value.differentFrom
  }

  lemma {:induction false} CompletionDepends(before: seq<PlanStage>, stage: PlanStage, claims: seq<Id>, d: Id)
    ensures d in CompleteStage(before, stage, claims).dependsOn <==> d in stage.dependsOn || d in PeersOf(before, stage)
  {
    WithPeersExactly(stage.dependsOn, PeersOf(before, stage), d);
  }

  lemma {:induction false} ProducersForExactly(stages: seq<PlanStage>, self: Id, d: Id)
    requires DistinctStages(stages)
    ensures d in ProducersFor(stages, self) <==> d in MaterialProducers(stages) && d != self && !Reaches(StageGraph(stages), d, self)
    ensures d in ProducersFor(stages, self) ==> d in StageGraph(stages)
  {
    BindableExactly(StageGraph(stages), self, MaterialProducers(stages), d);
    MaterialProducersExactly(stages, d);
    StageGraphEntries(stages);
  }

  /** The graph when the first `k` stages have been completed. */
  ghost function GraphAt(stages: seq<PlanStage>, claims: seq<Id>, k: nat): Graph {
    if k <= |stages| then StageGraph(CompletedTo(stages, claims, k)) else map[]
  }

  lemma {:induction false} CompletedDistinct(stages: seq<PlanStage>, claims: seq<Id>, n: nat)
    requires n <= |stages| && DistinctStages(stages)
    ensures DistinctStages(CompletedTo(stages, claims, n))
    ensures forall a :: IsStage(CompletedTo(stages, claims, n), a) <==> IsStage(stages, a)
  {
    CompletionShape(stages, claims, n);
    var after := CompletedTo(stages, claims, n);
    forall i | 0 <= i < |stages| ensures after[i].id == stages[i].id { assert SameShape(after[i], stages[i]); }
  }

  /** One stage's completion adds edges out of it alone. */
  lemma {:induction false} CompletionAdds(stages: seq<PlanStage>, claims: seq<Id>, i: nat)
    requires i < |stages| && DistinctStages(stages)
    ensures Adds(GraphAt(stages, claims, i), stages[i].id, GraphAt(stages, claims, i + 1))
    ensures GraphAt(stages, claims, i)[stages[i].id] == stages[i].dependsOn
    ensures GraphAt(stages, claims, i + 1)[stages[i].id] == CompleteStage(CompletedTo(stages, claims, i), stages[i], claims).dependsOn
  {
    var before := CompletedTo(stages, claims, i);
    var done := CompleteStage(before, stages[i], claims);
    CompletedDistinct(stages, claims, i);
    LaterUntouched(stages, claims, i, i);
    CompletedAt(stages, claims, i);
    StageGraphUpdated(before, i, done);
    StageGraphEntries(before);
    assert StageGraph(before)[before[i].id] == stages[i].dependsOn;
    forall d | d in stages[i].dependsOn ensures d in done.dependsOn { CompletionDepends(before, stages[i], claims, d); }
  }

  /** No stage loses a dependency. */
  lemma {:induction false} DependenciesKept(stages: seq<PlanStage>, claims: seq<Id>, i: nat, n: nat, j: nat, d: Id)
    requires i <= n <= |stages| && j < |stages| && d in CompletedTo(stages, claims, i)[j].dependsOn
    ensures d in CompletedTo(stages, claims, n)[j].dependsOn
  {
    if j < i {
      EarlierUntouched(stages, claims, j, i);
      EarlierUntouched(stages, claims, j, n);
    } else {
      LaterUntouched(stages, claims, i, j);
      if j < n {
        EarlierUntouched(stages, claims, j, n);
        CompletionDepends(CompletedTo(stages, claims, j), stages[j], claims, d);
      } else {
        LaterUntouched(stages, claims, n, j);
      }
    }
  }

  lemma {:induction false} EdgesKept(a: seq<PlanStage>, b: seq<PlanStage>)
    requires DistinctStages(a) && DistinctStages(b) && |a| == |b| && forall j | 0 <= j < |a| :: a[j].id == b[j].id
    requires forall j, d | 0 <= j < |a| && d in a[j].dependsOn :: d in b[j].dependsOn
    ensures MoreEdges(StageGraph(a), StageGraph(b))
  {
    StageGraphEntries(a);
    StageGraphEntries(b);
    forall x, d | d in Deps(StageGraph(a), x) ensures d in Deps(StageGraph(b), x) {
      var j :| 0 <= j < |a| && a[j].id == x;
      assert d in a[j].dependsOn;
    }
  }

  /** Dependencies are only ever added. */
  lemma {:induction false} CompletionGrows(stages: seq<PlanStage>, claims: seq<Id>, i: nat, n: nat, a: Id, b: Id)
    requires i <= n <= |stages| && DistinctStages(stages)
    requires Reaches(GraphAt(stages, claims, i), a, b)
    ensures Reaches(GraphAt(stages, claims, n), a, b)
  {
    var before, after := CompletedTo(stages, claims, i), CompletedTo(stages, claims, n);
    CompletedDistinct(stages, claims, i);
    CompletedDistinct(stages, claims, n);
    CompletionShape(stages, claims, i);
    CompletionShape(stages, claims, n);
    forall j | 0 <= j < |stages| ensures before[j].id == after[j].id {
      assert SameShape(before[j], stages[j]) && SameShape(after[j], stages[j]);
    }
    forall j, d | 0 <= j < |before| && d in before[j].dependsOn ensures d in after[j].dependsOn {
      DependenciesKept(stages, claims, i, n, j, d);
    }
    EdgesKept(before, after);
    MoreEdgesReach(StageGraph(before), StageGraph(after), a, b);
  }

  /**
    Completing the stage closes no loop: a peer it states that is not a dependency already is
    another stage, and one that does not lead back to it when its turn comes. The shorthand
    states none.
   */
  ghost predicate Clear(stages: seq<PlanStage>, claims: seq<Id>, i: nat)
    requires i < |stages|
  {
    stages[i].kind.AgentStage? && stages[i].independence.Some? ==>
      forall p | p in stages[i].independence.value.differentFrom && p !in stages[i].dependsOn ::
        IsStage(stages, p) && p != stages[i].id && !Reaches(GraphAt(stages, claims, i), p, stages[i].id)
  }

  ghost predicate AllClear(stages: seq<PlanStage>, claims: seq<Id>) {
    forall i | 0 <= i < |stages| :: Clear(stages, claims, i)
  }

  lemma {:induction false} ClearExtends(stages: seq<PlanStage>, claims: seq<Id>, i: nat)
    requires i < |stages| && DistinctStages(stages) && Clear(stages, claims, i)
    ensures Extends(GraphAt(stages, claims, i), stages[i].id, GraphAt(stages, claims, i + 1))
  {
    var before := CompletedTo(stages, claims, i);
    var g, g' := GraphAt(stages, claims, i), GraphAt(stages, claims, i + 1);
    var self := stages[i].id;
    CompletionAdds(stages, claims, i);
    CompletedDistinct(stages, claims, i);
    StageGraphEntries(before);
    forall d | d in g'[self] && d !in g[self] ensures d in g && d != self && !Reaches(g, d, self) {
      CompletionDepends(before, stages[i], claims, d);
      ProducersForExactly(before, self, d);
    }
  }

  lemma {:induction false} ClearKeeps(stages: seq<PlanStage>, claims: seq<Id>, i: nat)
    requires i < |stages| && DistinctStages(stages) && Clear(stages, claims, i) && Orderable(CompletedTo(stages, claims, i))
    ensures Orderable(CompletedTo(stages, claims, i + 1))
  {
    CompletedDistinct(stages, claims, i + 1);
    ClearExtends(stages, claims, i);
    StaysAcyclic(GraphAt(stages, claims, i), stages[i].id, GraphAt(stages, claims, i + 1));
    StaysClosed(GraphAt(stages, claims, i), stages[i].id, GraphAt(stages, claims, i + 1));
  }

  /** Where every stage is clear, completion keeps the graph closed and free of cycles. */
  lemma {:induction false} CompletionKeeps(stages: seq<PlanStage>, claims: seq<Id>, n: nat)
    requires n <= |stages| && Orderable(stages) && forall i | 0 <= i < n :: Clear(stages, claims, i)
    ensures Orderable(CompletedTo(stages, claims, n))
  {
    if n > 0 {
      CompletionKeeps(stages, claims, n - 1);
      ClearKeeps(stages, claims, n - 1);
    }
  }

  /** A stage that is not clear leaves a dangling dependency or a cycle for validation to refuse. */
  lemma {:induction false} UnclearBreaks(stages: seq<PlanStage>, claims: seq<Id>, i: nat)
    requires i < |stages| && DistinctStages(stages) && !Clear(stages, claims, i)
    ensures !Orderable(Completed(stages, claims))
  {
    var after := Completed(stages, claims);
    var self := stages[i].id;
    var p :| p in stages[i].independence.value.differentFrom && p !in stages[i].dependsOn
      && (!IsStage(stages, p) || p == self || Reaches(GraphAt(stages, claims, i), p, self));
    CompletedDistinct(stages, claims, |stages|);
    StageGraphEntries(after);
    EarlierUntouched(stages, claims, i, |stages|);
    CompletionDepends(CompletedTo(stages, claims, i), stages[i], claims, p);
    assert p in Deps(StageGraph(after), after[i].id);
    if IsStage(stages, p) {
      if p != self { CompletionGrows(stages, claims, i, |stages|, p, self); }
      ReachesVia(StageGraph(after), self, p, self);
    }
  }

  /**
    Completing a plan that can be ordered leaves one that can be ordered exactly when every
    stage is clear when its turn comes.
   */
  lemma {:induction false} CompletionKeepsExactly(stages: seq<PlanStage>, claims: seq<Id>)
    requires Orderable(stages)
    ensures Orderable(Completed(stages, claims)) <==> AllClear(stages, claims)
  {
    if AllClear(stages, claims) {
      CompletionKeeps(stages, claims, |stages|);
    } else {
      var i :| 0 <= i < |stages| && !Clear(stages, claims, i);
      UnclearBreaks(stages, claims, i);
    }
  }

  /** A stage once completed is not touched again. */
  lemma {:induction false} EarlierUntouched(stages: seq<PlanStage>, claims: seq<Id>, i: nat, n: nat)
    requires i < n <= |stages|
    ensures CompletedTo(stages, claims, n)[i] == CompleteStage(CompletedTo(stages, claims, i), stages[i], claims)
    decreases n
  {
    if n == i + 1 {
      CompletedAt(stages, claims, i);
    } else {
      EarlierUntouched(stages, claims, i, n - 1);
      CompletedAt(stages, claims, n - 1);
    }
  }

  /** The completed stages. */
  ghost function Completed(stages: seq<PlanStage>, claims: seq<Id>): seq<PlanStage> {
    CompletedTo(stages, claims, |stages|)
  }

  lemma {:induction false} PeersInTheEnd(stages: seq<PlanStage>, claims: seq<Id>, i: nat)
    requires i < |stages| && stages[i].kind.AgentStage? && stages[i].independence.Some?
    ensures Completed(stages, claims)[i].independence.Some?
    ensures Completed(stages, claims)[i].independence.value.differentFrom == PeersOf(CompletedTo(stages, claims, i), stages[i])
  {
    EarlierUntouched(stages, claims, i, |stages|);
  }

  lemma {:induction false} ProducersKept(stages: seq<PlanStage>, claims: seq<Id>, n: nat)
    requires n <= |stages|
    ensures MaterialProducers(CompletedTo(stages, claims, n)) == MaterialProducers(stages)
  {
    CompletionShape(stages, claims, n);
    SameProducers(CompletedTo(stages, claims, n), stages);
  }

  /** Every peer a completed stage names is one of its dependencies; a stated list of peers stays as stated. */
  lemma {:induction false} BoundPeersAreDependencies(stages: seq<PlanStage>, claims: seq<Id>, i: nat, p: Id)
    requires i < |stages| && stages[i].kind.AgentStage? && stages[i].independence.Some?
    ensures Completed(stages, claims)[i].independence.Some?
    ensures p in Completed(stages, claims)[i].independence.value.differentFrom ==> p in Completed(stages, claims)[i].dependsOn
    ensures !Shorthand(stages[i]) ==>
              Completed(stages, claims)[i].independence.value.differentFrom == stages[i].independence.value.differentFrom
  {
    EarlierUntouched(stages, claims, i, |stages|);
    CompletionDepends(CompletedTo(stages, claims, i), stages[i], claims, p);
  }

  /**
    What a shorthand independence is bound to: exactly the producers other than the stage
    that do not depend on it, at the step that binds it and equally in the finished graph.
   */
  lemma {:induction false} BindsExactly(stages: seq<PlanStage>, claims: seq<Id>, i: nat, p: Id)
    requires i < |stages| && Orderable(stages) && AllClear(stages, claims)
    requires stages[i].kind.AgentStage? && Shorthand(stages[i])
    ensures Completed(stages, claims)[i].independence.Some?
    ensures var peers := Completed(stages, claims)[i].independence.value.differentFrom;
            && (p in peers <==> p in MaterialProducers(stages) && p != stages[i].id && !Reaches(GraphAt(stages, claims, i), p, stages[i].id))
            && (p in peers <==> p in MaterialProducers(stages) && p != stages[i].id && !Reaches(StageGraph(Completed(stages, claims)), p, stages[i].id))
  {
    var before, after := CompletedTo(stages, claims, i), Completed(stages, claims);
    var self := stages[i].id;
    PeersInTheEnd(stages, claims, i);
    ProducersKept(stages, claims, i);
    CompletedDistinct(stages, claims, i);
    ProducersForExactly(before, self, p);
    BoundPeersAreDependencies(stages, claims, i, p);
    CompletionKeeps(stages, claims, |stages|);
    StageGraphEntries(after);
    CompletionShape(stages, claims, |stages|);
    assert SameShape(after[i], stages[i]);
    if Reaches(GraphAt(stages, claims, i), p, self) {
      CompletionGrows(stages, claims, i, |stages|, p, self);
    }
    if p in ProducersFor(before, self) && Reaches(StageGraph(after), p, self) {
      assert p in Deps(StageGraph(after), self);
      ReachesVia(StageGraph(after), self, p, self);
    }
  }

  ghost predicate IsWorker(stages: seq<PlanStage>, p: Id) {
    exists k :: 0 <= k < |stages| && stages[k].id == p && stages[k].kind.AgentStage?
  }

  /** What the plan law asks of a worker's peers, read off the plan before completion. */
  ghost predicate PeersHold(stages: seq<PlanStage>, claims: seq<Id>, i: nat)
    requires i < |stages| && stages[i].independence.Some?
  {
    if Shorthand(stages[i]) then
      exists p :: p in MaterialProducers(stages) && p != stages[i].id && !Reaches(StageGraph(Completed(stages, claims)), p, stages[i].id)
    else
      forall p | p in stages[i].independence.value.differentFrom ::
        IsWorker(stages, p)
  }

  /**
    The plan law on independence holds of a completed stage exactly when its shorthand found a
    producer, or every peer it states is a worker stage: each peer is then a worker the stage
    itself depends on.
   */
  lemma {:induction false} CompletedIndependenceValid(stages: seq<PlanStage>, claims: seq<Id>, i: nat, byID: map<Id, PlanStage>)
    requires i < |stages| && Orderable(stages) && AllClear(stages, claims)
    requires stages[i].kind.AgentStage? && stages[i].independence.Some?
    requires KnownDimension(stages[i].independence.value.dimension) && !stages[i].independence.value.dimension.HumanDimension?
    requires StageGraphs.IndexesStages(Completed(stages, claims), byID)
    ensures StageGraphs.ValidIndependence(Completed(stages, claims)[i], byID) <==> PeersHold(stages, claims, i)
  {
    var after := Completed(stages, claims);
    EarlierUntouched(stages, claims, i, |stages|);
    PeersInTheEnd(stages, claims, i);
    var peers := after[i].independence.value.differentFrom;
    forall p | p in peers ensures StageGraphs.ValidPeer(after[i], byID, p) <==> IsWorker(stages, p) {
      PeerValid(stages, claims, i, byID, p);
    }
    if Shorthand(stages[i]) {
      forall p ensures p in peers <==> p in MaterialProducers(stages) && p != stages[i].id && !Reaches(StageGraph(after), p, stages[i].id) {
        BindsExactly(stages, claims, i, p);
      }
      forall p | p in peers ensures IsWorker(stages, p) { MaterialProducersExactly(stages, p); }
      if peers != [] { assert peers[0] in peers; }
    }
  }

  lemma {:induction false} PeerValid(stages: seq<PlanStage>, claims: seq<Id>, i: nat, byID: map<Id, PlanStage>, p: Id)
    requires i < |stages| && Orderable(stages) && AllClear(stages, claims)
    requires stages[i].kind.AgentStage? && stages[i].independence.Some?
    requires StageGraphs.IndexesStages(Completed(stages, claims), byID)
    requires p in PeersOf(CompletedTo(stages, claims, i), stages[i])
    ensures StageGraphs.ValidPeer(Completed(stages, claims)[i], byID, p) <==> IsWorker(stages, p)
  {
    var after := Completed(stages, claims);
    CompletionKeeps(stages, claims, |stages|);
    CompletionShape(stages, claims, |stages|);
    PeersInTheEnd(stages, claims, i);
    BoundPeersAreDependencies(stages, claims, i, p);
    StageGraphEntries(after);
    StageGraphs.IndexedGraph(after, byID);
    assert SameShape(after[i], stages[i]);
    assert p in Deps(StageGraph(after), after[i].id);
    ReachesEdge(StageGraph(after), after[i].id, p);
    assert IsStage(after, p);
    var k :| 0 <= k < |after| && after[k].id == p;
    assert SameShape(after[k], stages[k]);
    assert byID[after[k].id] == after[k];
  }

  // ---------------------------------------------------------------- the canonical order

  /** The canonical form is a permutation of the stages, each after everything it depends on. */
  lemma {:induction false} CanonicalIsDependencyFirst(stages: seq<PlanStage>)
    requires Orderable(stages)
    ensures |Canonical(stages)| == |stages| == |Order(StageGraph(stages))|
    ensures forall k | 0 <= k < |stages| :: Canonical(stages)[k].id == Order(StageGraph(stages))[k]
    ensures forall k, d | 0 <= k < |stages| && d in Canonical(stages)[k].dependsOn :: d in Order(StageGraph(stages))[..k]
    ensures forall i | 0 <= i < |stages| :: Tidied(stages[i]) in Canonical(stages)
  {
    var g := StageGraph(stages);
    StageGraphEntries(stages);
    CompleteIffAcyclic(g);
    OrderLength(g);
    forall k | 0 <= k < |stages| ensures Canonical(stages)[k].id == Order(g)[k] { CanonicalEntry(stages, k); }
    forall k, d | 0 <= k < |stages| && d in Canonical(stages)[k].dependsOn ensures d in Order(g)[..k] {
      CanonicalEntry(stages, k);
      OrderFromDependencies(g, {}, k, d);
    }
    forall i | 0 <= i < |stages| ensures Tidied(stages[i]) in Canonical(stages) { CanonicalHas(stages, i); }
  }

  lemma {:induction false} CanonicalHas(stages: seq<PlanStage>, i: nat)
    requires Orderable(stages) && i < |stages|
    ensures Tidied(stages[i]) in Canonical(stages)
  {
    var g := StageGraph(stages);
    StageGraphEntries(stages);
    CompleteIffAcyclic(g);
    OrderLength(g);
    assert stages[i].id in Settled(g);
    var k :| 0 <= k < |Order(g)| && Order(g)[k] == stages[i].id;
    StageOfExactly(stages, i);
    assert Canonical(stages)[k] == Tidied(stages[i]);
  }

  lemma {:induction false} CanonicalEntry(stages: seq<PlanStage>, k: nat)
    requires Orderable(stages) && k < |Order(StageGraph(stages))|
    ensures Canonical(stages)[k].id == Order(StageGraph(stages))[k]
    ensures forall d :: d in Canonical(stages)[k].dependsOn <==> d in Deps(StageGraph(stages), Order(StageGraph(stages))[k])
  {
    var g := StageGraph(stages);
    StageGraphEntries(stages);
    OrderLength(g);
    var a := Order(g)[k];
    assert IsStage(stages, a);
    var i :| 0 <= i < |stages| && stages[i].id == a;
    StageOfExactly(stages, i);
    SortSorts(stages[i].dependsOn);
  }

  lemma {:induction false} SameEntry(a: seq<PlanStage>, b: seq<PlanStage>, x: Id)
    requires DistinctStages(a) && DistinctStages(b) && forall i | 0 <= i < |a| :: a[i] in b
    requires IsStage(a, x)
    ensures x in StageGraph(a) && x in StageGraph(b) && StageGraph(a)[x] == StageGraph(b)[x]
    ensures StageOf(a, x) == StageOf(b, x)
  {
    StageGraphEntries(a);
    StageGraphEntries(b);
    var i :| 0 <= i < |a| && a[i].id == x;
    var j :| 0 <= j < |b| && b[j] == a[i];
    StageOfExactly(a, i);
    StageOfExactly(b, j);
    assert StageGraph(a)[a[i].id] == StageGraph(b)[b[j].id];
  }

  /** Two compilations of the same stages, stated in different orders, write the same document. */
  lemma {:induction false} CanonicalIgnoresInputOrder(a: seq<PlanStage>, b: seq<PlanStage>)
    requires Orderable(a) && DistinctStages(b) && |a| == |b|
    requires forall i | 0 <= i < |a| :: a[i] in b
    ensures Orderable(b) && Canonical(a) == Canonical(b)
  {
    SameStages(a, b);
    OrderLength(StageGraph(a));
    assert InOrder(a, Order(StageGraph(a))) == InOrder(b, Order(StageGraph(a)));
  }

  lemma {:induction false} SameStages(a: seq<PlanStage>, b: seq<PlanStage>)
    requires DistinctStages(a) && DistinctStages(b) && |a| == |b| && forall i | 0 <= i < |a| :: a[i] in b
    ensures StageGraph(a) == StageGraph(b)
    ensures forall x | x in StageGraph(a) :: StageOf(a, x) == StageOf(b, x)
  {
    var g, h := StageGraph(a), StageGraph(b);
    StageGraphEntries(a);
    StageGraphEntries(b);
    forall x | x in g ensures x in h && h[x] == g[x] && StageOf(a, x) == StageOf(b, x) { SameEntry(a, b, x); }
    SameMap(g, h);
  }

  lemma SameMap(g: Graph, h: Graph)
    requires |g| == |h| && forall x | x in g :: x in h && h[x] == g[x]
    ensures g == h
  {
    SameSizeSubset(g.Keys, h.Keys);
    assert forall x :: x in h <==> x in h.Keys;
  }

  lemma SameSizeSubset(a: set<Id>, b: set<Id>)
    requires a <= b && |a| == |b|
    ensures a == b
  {
    if a != b {
      var x :| x in b && x !in a;
      assert a <= b - {x};
      SubsetSize(a, b - {x});
    }
  }

  lemma {:induction false} SubsetSize(a: set<Id>, b: set<Id>)
    requires a <= b
    ensures |a| <= |b|
  {
    if a != {} {
      var x :| x in a;
      SubsetSize(a - {x}, b - {x});
    }
  }

  /**
    Three loops, one law: on the same dependencies, the work graph's order succeeds, the
    planner's cycle refusal accepts, and the canonical order orders every stage, all exactly
    when there is no cycle; and then both orders are the same.
   */
  lemma {:induction false} OrdersAgree(stages: seq<PlanStage>, units: seq<WorkGraphs.WorkUnit>)
    requires DistinctStages(stages) && WorkGraphs.DistinctUnits(units) && Closed(StageGraph(stages))
    requires WorkGraphs.UnitGraph(units) == StageGraph(stages)
    ensures |Order(WorkGraphs.UnitGraph(units))| == |units| <==> Acyclic(StageGraph(stages))
    ensures |Order(StageGraph(stages))| == |stages| <==> Acyclic(StageGraph(stages))
    ensures Orderable(stages) <==> Acyclic(StageGraph(stages))
    ensures Acyclic(StageGraph(stages)) ==>
              |Canonical(stages)| == |stages| == |Order(StageGraph(stages))|
              && forall k | 0 <= k < |stages| :: Canonical(stages)[k].id == Order(WorkGraphs.UnitGraph(units))[k]
  {
    StageGraphEntries(stages);
    WorkGraphs.UnitGraphEntries(units);
    CompleteIffAcyclic(StageGraph(stages));
    if Acyclic(StageGraph(stages)) { CanonicalIsDependencyFirst(stages); }
  }
}
