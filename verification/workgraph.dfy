/** Work graphs: the documents, their one deterministic order, and the two admission gates. */
module WorkGraphs {
  import opened Ids
  import opened Graphs
  import opened Kahn
  import opened Vocabulary

  const SCHEMA_VERSION: nat := 1
  const MAX_UNITS: nat := 32

  datatype WorkUnit = WorkUnit(
    id: Id,
    purpose: Id,
    role: Role,
    executionKind: ExecutionKind,
    issue: int,
    dependsOn: seq<Id>,
    requiresReview: bool)

  /** The digest of a repository, an agent and a name, as a free constructor. */
  datatype GraphIdentity = GraphIdentity(repository: Id, agent: Id, name: Id)

  datatype PlanRef = PlanRef(id: Option<Id>, revision: int, digest: Option<Id>)

  datatype WorkGraph = WorkGraph(
    schemaVersion: nat,
    id: GraphIdentity,
    repository: Id,
    agent: Id,
    name: Id,
    revision: int,
    units: seq<WorkUnit>,
    objectivePlan: Option<PlanRef>)

  function UnitNodes(units: seq<WorkUnit>): (nodes: seq<Node>)
    ensures |nodes| == |units|
    ensures forall i | 0 <= i < |units| :: nodes[i] == Node(units[i].id, units[i].dependsOn)
  {
    seq(|units|, i requires 0 <= i < |units| => Node(units[i].id, units[i].dependsOn))
  }

  function UnitGraph(units: seq<WorkUnit>): Graph {
    GraphOf(UnitNodes(units))
  }

  ghost predicate DistinctUnits(units: seq<WorkUnit>) {
    forall i, j | 0 <= i < j < |units| :: units[i].id != units[j].id
  }

  ghost predicate IsUnit(units: seq<WorkUnit>, id: Id) {
    exists i :: 0 <= i < |units| && units[i].id == id
  }

  lemma {:induction false} UnitGraphEntries(units: seq<WorkUnit>)
    requires DistinctUnits(units)
    ensures DistinctIds(UnitNodes(units))
    ensures forall i | 0 <= i < |units| :: units[i].id in UnitGraph(units) && UnitGraph(units)[units[i].id] == units[i].dependsOn
    ensures forall a :: a in UnitGraph(units) <==> IsUnit(units, a)
    ensures |UnitGraph(units)| == |units|
  {
    var nodes := UnitNodes(units);
    GraphOfNodes(nodes);
    forall i | 0 <= i < |units| ensures units[i].id in UnitGraph(units) && UnitGraph(units)[units[i].id] == units[i].dependsOn {
      assert nodes[i] in nodes;
    }
    forall a | a in UnitGraph(units) ensures IsUnit(units, a) {
      var i :| 0 <= i < |nodes| && nodes[i] == Node(a, GraphOf(nodes)[a]);
      assert units[i].id == a;
    }
  }

  /**
    The dependency-first order of the units, or the units it could not reach, ascending. It
    is `Kahn.Order`: what that order promises is stated about it there.
   */
  method TopologicalOrder(units: seq<WorkUnit>) returns (r: Result<seq<Id>, seq<Id>>)
    requires DistinctUnits(units)
    ensures r == if |Order(UnitGraph(units))| == |units| then Success(Order(UnitGraph(units)))
                 else Failure(Listing(UnitGraph(units).Keys - Settled(UnitGraph(units))))
  {
    ghost var g := UnitGraph(units);
    UnitGraphEntries(units);
    var remaining, dependents := CountDependencies(UnitNodes(units));
    var ready := InitialReady(remaining);
    var c := Counter(remaining, ready);
    var order: seq<Id> := [];
    WalkStarts(g, dependents, c);
    while |c.ready| > 0
      invariant Walking(g, dependents, c, order)
      decreases |Order(g)| - |order|
    {
      WalkSteps(g, dependents, c, order);
      var id := c.ready[0];
      order := order + [id];
      c := Release(id, dependents, Counter(c.remaining, c.ready[1..]));
    }
    WalkEnds(g, dependents, c, order);
    if |order| == |units| {
      return Success(order);
    }
    var unresolved := Unresolved(c.remaining);
    return Failure(unresolved);
  }

  // ---------------------------------------------------------------- validation

  predicate ValidUnit(unit: WorkUnit) {
    && KnownRole(unit.role)
    && KnownExecutionKind(unit.executionKind)
    && (unit.executionKind.IntegrationCompose? ==> |unit.dependsOn| >= 2 && !unit.requiresReview)
    && unit.issue > 0
  }

  ghost predicate ValidDependencies(units: seq<WorkUnit>, unit: WorkUnit) {
    && Distinct(unit.dependsOn)
    && forall d | d in unit.dependsOn :: d != unit.id && IsUnit(units, d)
  }

  ghost predicate DistinctIssues(units: seq<WorkUnit>) {
    forall i, j | 0 <= i < j < |units| :: units[i].issue != units[j].issue
  }

  /** What every admitted revision satisfies. */
  ghost predicate ValidGraph(g: WorkGraph) {
    && (g.objectivePlan.Some? ==>
          g.objectivePlan.value.id.Some? && g.objectivePlan.value.revision >= 1 && g.objectivePlan.value.digest.Some?)
    && g.schemaVersion == SCHEMA_VERSION
    && g.id == GraphIdentity(g.repository, g.agent, g.name)
    && g.revision >= 1
    && 1 <= |g.units| <= MAX_UNITS
    && DistinctUnits(g.units)
    && (forall i | 0 <= i < |g.units| :: ValidUnit(g.units[i]) && ValidDependencies(g.units, g.units[i]))
    && (g.objectivePlan.None? ==> DistinctIssues(g.units))
    && Acyclic(UnitGraph(g.units))
  }

  lemma ValidGraphClosed(g: WorkGraph)
    requires DistinctUnits(g.units)
    requires forall i | 0 <= i < |g.units| :: ValidDependencies(g.units, g.units[i])
    ensures Closed(UnitGraph(g.units))
  {
    var u := UnitGraph(g.units);
    UnitGraphEntries(g.units);
    forall a, d | a in u && d in u[a] ensures d in u {
      var i :| 0 <= i < |g.units| && g.units[i].id == a;
      assert d in g.units[i].dependsOn;
    }
  }

  /** `WorkGraph.Validate`: refuses exactly the graphs that are not valid. */
  method Validate(g: WorkGraph) returns (ok: bool)
    ensures ok <==> ValidGraph(g)
  {
    if g.objectivePlan.Some? {
      var plan := g.objectivePlan.value;
      if plan.id.None? || plan.revision < 1 || plan.digest.None? { return false; }
    }
    if g.schemaVersion != SCHEMA_VERSION { return false; }
    if GraphIdentity(g.repository, g.agent, g.name) != g.id { return false; }
    if g.revision < 1 { return false; }
    if |g.units| == 0 || |g.units| > MAX_UNITS { return false; }
    var fine := ValidateUnits(g);
    if !fine { return false; }
    fine := ValidateAllDependencies(g.units);
    if !fine { return false; }
    ValidGraphClosed(g);
    CompleteIffAcyclic(UnitGraph(g.units));
    UnitGraphEntries(g.units);
    var order := TopologicalOrder(g.units);
    return order.Success?;
  }

  lemma IssuesOneMore(units: seq<WorkUnit>, i: nat)
    requires i < |units| && DistinctIssues(units[..i]) && forall k | 0 <= k < i :: units[k].issue != units[i].issue
    ensures DistinctIssues(units[..i + 1])
  {
  }

  method ValidateUnits(g: WorkGraph) returns (ok: bool)
    ensures ok <==> (DistinctUnits(g.units)
                     && (forall i | 0 <= i < |g.units| :: ValidUnit(g.units[i]))
                     && (g.objectivePlan.None? ==> DistinctIssues(g.units)))
  {
    var byID: map<Id, WorkUnit> := map[];
    var issues: seq<int> := [];
    for i := 0 to |g.units|
      invariant DistinctUnits(g.units[..i])
      invariant forall a :: a in byID <==> exists k :: 0 <= k < i && g.units[k].id == a
      invariant forall k | 0 <= k < i :: ValidUnit(g.units[k])
      invariant |issues| == i && forall k | 0 <= k < i :: issues[k] == g.units[k].issue
      invariant g.objectivePlan.None? ==> DistinctIssues(g.units[..i])
    {
      var unit := g.units[i];
      if unit.id in byID {
        ghost var k :| 0 <= k < i && g.units[k].id == unit.id;
        assert !DistinctUnits(g.units);
        return false;
      }
      byID := byID[unit.id := unit];
      if !KnownRole(unit.role) { return false; }
      if !KnownExecutionKind(unit.executionKind) { return false; }
      if EffectiveExecutionKind(unit.executionKind).IntegrationCompose? && |unit.dependsOn| < 2 { return false; }
      if unit.requiresReview && EffectiveExecutionKind(unit.executionKind).IntegrationCompose? { return false; }
      if unit.issue <= 0 { return false; }
      if unit.issue in issues && g.objectivePlan.None? {
        ghost var k :| 0 <= k < i && issues[k] == unit.issue;
        assert g.units[k].issue == g.units[i].issue;
        return false;
      }
      if g.objectivePlan.None? {
        assert forall k | 0 <= k < i :: issues[k] in issues;
        IssuesOneMore(g.units, i);
      }
      issues := issues + [unit.issue];
    }
    assert g.units[..|g.units|] == g.units;
    return true;
  }

  method ValidateAllDependencies(units: seq<WorkUnit>) returns (ok: bool)
    ensures ok <==> forall i | 0 <= i < |units| :: ValidDependencies(units, units[i])
  {
    for i := 0 to |units|
      invariant forall k | 0 <= k < i :: ValidDependencies(units, units[k])
    {
      var fine := ValidateDependencies(units, units[i]);
      if !fine { return false; }
    }
    return true;
  }

  method ValidateDependencies(units: seq<WorkUnit>, unit: WorkUnit) returns (ok: bool)
    ensures ok <==> ValidDependencies(units, unit)
  {
    var seen: set<Id> := {};
    for j := 0 to |unit.dependsOn|
      invariant Distinct(unit.dependsOn[..j])
      invariant forall a :: a in seen <==> a in unit.dependsOn[..j]
      invariant forall d | d in unit.dependsOn[..j] :: d != unit.id && IsUnit(units, d)
    {
      var dependency := unit.dependsOn[j];
      assert dependency in unit.dependsOn;
      assert unit.dependsOn[..j + 1] == unit.dependsOn[..j] + [dependency];
      if dependency == unit.id { return false; }
      if dependency in seen {
        var k: int :| 0 <= k < j && unit.dependsOn[..j][k] == dependency;
        assert unit.dependsOn[k] == unit.dependsOn[j];
        return false;
      }
      seen := seen + {dependency};
      var known := Names(units, dependency);
      if !known { return false; }
    }
    assert unit.dependsOn[..|unit.dependsOn|] == unit.dependsOn;
    return true;
  }

  method Names(units: seq<WorkUnit>, id: Id) returns (known: bool)
    ensures known <==> IsUnit(units, id)
  {
    for i := 0 to |units|
      invariant forall k | 0 <= k < i :: units[k].id != id
    {
      if units[i].id == id { return true; }
    }
    return false;
  }

  // ---------------------------------------------------------------- mutation

  /** A revision may restate an activated unit only as itself. */
  predicate SameUnit(a: WorkUnit, b: WorkUnit) {
    && a.issue == b.issue
    && a.role == b.role
    && EffectiveExecutionKind(a.executionKind) == EffectiveExecutionKind(b.executionKind)
    && a.purpose == b.purpose
    && |a.dependsOn| == |b.dependsOn|
    && a.requiresReview == b.requiresReview
    && Sort(a.dependsOn) == Sort(b.dependsOn)
  }

  /** What adopting `next` after `current` requires. */
  ghost predicate MutationAllowed(current: WorkGraph, next: WorkGraph, activated: set<Id>) {
    && current.objectivePlan.None? && next.objectivePlan.None?
    && ValidGraph(next)
    && next.id == current.id && next.repository == current.repository
    && next.agent == current.agent && next.name == current.name
    && next.revision == current.revision + 1
    && forall i | 0 <= i < |current.units| && current.units[i].id in activated :: Kept(current.units[i], next.units)
  }

  ghost predicate Kept(unit: WorkUnit, units: seq<WorkUnit>) {
    exists j :: 0 <= j < |units| && units[j].id == unit.id && SameUnit(unit, units[j])
  }

  /** `ValidateMutation`: freezes every activated unit. */
  method ValidateMutation(current: WorkGraph, next: WorkGraph, activated: set<Id>) returns (ok: bool)
    ensures ok <==> MutationAllowed(current, next, activated)
  {
    if current.objectivePlan.Some? || next.objectivePlan.Some? { return false; }
    var valid := Validate(next);
    if !valid { return false; }
    if next.id != current.id || next.repository != current.repository ||
       next.agent != current.agent || next.name != current.name { return false; }
    if next.revision != current.revision + 1 { return false; }
    var byID := IndexUnits(next.units);
    for i := 0 to |current.units|
      invariant forall k | 0 <= k < i && current.units[k].id in activated :: Kept(current.units[k], next.units)
    {
      var unit := current.units[i];
      if unit.id !in activated { continue; }
      if unit.id !in byID { return false; }
      if !SameUnit(unit, byID[unit.id]) { return false; }
    }
    return true;
  }

  method IndexUnits(units: seq<WorkUnit>) returns (byID: map<Id, WorkUnit>)
    requires DistinctUnits(units)
    ensures forall a :: a in byID <==> IsUnit(units, a)
    ensures forall i | 0 <= i < |units| :: units[i].id in byID && byID[units[i].id] == units[i]
  {
    byID := map[];
    for i := 0 to |units|
      invariant forall a :: a in byID <==> exists k :: 0 <= k < i && units[k].id == a
      invariant forall k | 0 <= k < i :: units[k].id in byID && byID[units[k].id] == units[k]
    {
      byID := byID[units[i].id := units[i]];
    }
  }
}
