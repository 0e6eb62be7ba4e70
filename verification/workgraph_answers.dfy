/** The documents a work graph may be and the revisions that may follow it, in terms of their own fields. */
module WorkGraphAnswers {
  import opened Ids
  import opened Graphs
  import opened Vocabulary
  import opened WorkGraphs
  import opened StageAnswers

  /** A known role, an issue, and, for a unit that composes others, at least two of them and no review of its own. */
  ghost predicate UnitFits(unit: WorkUnit) {
    && RoleIsKnown(unit.role) && unit.issue >= 1
    && match unit.executionKind
       case DefaultExecution => true
       case ProviderExecution => true
       case IntegrationCompose => |unit.dependsOn| >= 2 && unit.requiresReview == false
       case UnknownExecution(_) => false
  }

  /** Each dependency is another unit, named once. */
  ghost predicate DependsInside(units: seq<WorkUnit>, i: nat)
    requires i < |units|
  {
    && (forall j, k | 0 <= j < |units[i].dependsOn| && 0 <= k < |units[i].dependsOn| && units[i].dependsOn[j] == units[i].dependsOn[k] :: j == k)
    && forall d | d in units[i].dependsOn :: exists k :: 0 <= k < |units| && k != i && units[k].id == d
  }

  /** The identity is that of the repository, agent and name, and a graph bound to a plan names one of its revisions. */
  ghost predicate HeaderFits(g: WorkGraph) {
    && g.schemaVersion == 1 && g.revision > 0
    && g.id.repository == g.repository && g.id.agent == g.agent && g.id.name == g.name
    && match g.objectivePlan
       case None => true
       case Some(plan) => plan.id != None && plan.digest != None && plan.revision > 0
  }

  /** One issue to a unit, unless the graph is bound to a plan. */
  ghost predicate IssuesApart(g: WorkGraph) {
    g.objectivePlan == None ==> forall i, j | 0 <= i < |g.units| && 0 <= j < |g.units| && g.units[i].issue == g.units[j].issue :: i == j
  }

  lemma UnitExactly(unit: WorkUnit)
    ensures ValidUnit(unit) <==> UnitFits(unit)
  {
    RolesExactly(unit.role, CodeChange);
  }

  lemma {:induction false} DependsExactly(units: seq<WorkUnit>, i: nat)
    requires DistinctUnits(units) && i < |units|
    ensures ValidDependencies(units, units[i]) <==> DependsInside(units, i)
  {
    forall d ensures d != units[i].id && IsUnit(units, d) <==> exists k :: 0 <= k < |units| && k != i && units[k].id == d {
      if d == units[i].id { assert forall k | 0 <= k < |units| && units[k].id == d :: k == i; }
    }
    var deps := units[i].dependsOn;
    assert Distinct(deps) <==> forall j, k | 0 <= j < |deps| && 0 <= k < |deps| && deps[j] == deps[k] :: j == k;
  }

  /** The graphs validation accepts. */
  lemma {:induction false} ValidGraphExactly(g: WorkGraph)
    ensures ValidGraph(g) <==>
              && HeaderFits(g) && 1 <= |g.units| <= 32
              && DistinctUnits(g.units)
              && (forall i | 0 <= i < |g.units| :: UnitFits(g.units[i]) && DependsInside(g.units, i))
              && IssuesApart(g)
              && forall a :: !Reaches(UnitGraph(g.units), a, a)
  {
    forall i | 0 <= i < |g.units| ensures ValidUnit(g.units[i]) <==> UnitFits(g.units[i]) { UnitExactly(g.units[i]); }
    if DistinctUnits(g.units) {
      forall i | 0 <= i < |g.units| ensures ValidDependencies(g.units, g.units[i]) <==> DependsInside(g.units, i) { DependsExactly(g.units, i); }
      UnitsExactly(g.units);
    }
    assert DistinctIssues(g.units) <==>
             forall i, j | 0 <= i < |g.units| && 0 <= j < |g.units| && g.units[i].issue == g.units[j].issue :: i == j;
  }

  lemma {:induction false} UnitsExactly(units: seq<WorkUnit>)
    requires DistinctUnits(units)
    ensures (forall i | 0 <= i < |units| :: ValidUnit(units[i]) && ValidDependencies(units, units[i])) <==>
              forall i | 0 <= i < |units| :: UnitFits(units[i]) && DependsInside(units, i)
  {
    forall i | 0 <= i < |units| ensures ValidUnit(units[i]) && ValidDependencies(units, units[i]) <==> UnitFits(units[i]) && DependsInside(units, i) {
      UnitExactly(units[i]);
      DependsExactly(units, i);
    }
    if forall i | 0 <= i < |units| :: UnitFits(units[i]) && DependsInside(units, i) {
      forall i | 0 <= i < |units| ensures ValidUnit(units[i]) && ValidDependencies(units, units[i]) { assert DependsInside(units, i); }
    }
  }

  // ---------------------------------------------------------------- revisions

  /** The same unit, its dependencies in whatever order; no execution kind means the provider's. */
  ghost predicate Restates(a: WorkUnit, b: WorkUnit) {
    && b == a.(executionKind := b.executionKind, dependsOn := b.dependsOn)
    && (a.executionKind == b.executionKind || (Providers(a.executionKind) && Providers(b.executionKind)))
    && multiset(a.dependsOn) == multiset(b.dependsOn)
  }

  ghost predicate Providers(kind: ExecutionKind) {
    kind == DefaultExecution || kind == ProviderExecution
  }

  lemma {:induction false} RestatesExactly(a: WorkUnit, b: WorkUnit)
    requires a.id == b.id
    ensures SameUnit(a, b) <==> Restates(a, b)
  {
    SortSorts(a.dependsOn);
    SortSorts(b.dependsOn);
    if multiset(a.dependsOn) == multiset(b.dependsOn) { AscendingUnique(Sort(a.dependsOn), Sort(b.dependsOn)); }
    if SameUnit(a, b) { assert b == a.(executionKind := b.executionKind, dependsOn := b.dependsOn); }
  }

  /** The revisions that may follow: of neither graph is bound to a plan, the next number of the same graph, every activated unit restated as it was. */
  lemma {:induction false} MutationExactly(current: WorkGraph, next: WorkGraph, activated: set<Id>)
    ensures MutationAllowed(current, next, activated) <==>
              && current.objectivePlan == None && next.objectivePlan == None && ValidGraph(next)
              && next.id == current.id && next.repository == current.repository && next.agent == current.agent && next.name == current.name
              && next.revision == current.revision + 1
              && forall i | 0 <= i < |current.units| && current.units[i].id in activated ::
                   exists j :: 0 <= j < |next.units| && next.units[j].id == current.units[i].id && Restates(current.units[i], next.units[j])
  {
    forall i, j | 0 <= i < |current.units| && 0 <= j < |next.units| && next.units[j].id == current.units[i].id
      ensures SameUnit(current.units[i], next.units[j]) <==> Restates(current.units[i], next.units[j])
    {
      RestatesExactly(current.units[i], next.units[j]);
    }
  }
}
