/** Whole runs of a work graph: activation from the frontier, child progress, holds, and revisions through the mutation gate. */
module WorkGraphRuns {
  import opened Ids
  import opened Graphs
  import opened WorkGraphs
  import opened Projection
  import opened ProjectionLaws

  /** The adopted revision and the durable facts of its units. */
  datatype State = State(graph: WorkGraph, facts: map<Id, UnitFacts>)

  /** Everything about a unit that its child run and reviewers report. */
  datatype ChildReport = ChildReport(
    item: ItemState,
    terminal: bool,
    unreadable: bool,
    unreadableReason: Id,
    output: Option<UnitOutput>,
    reviewApproved: bool,
    remediation: Id)

  function WithChild(fact: UnitFacts, child: ChildReport): UnitFacts {
    fact.(item := child.item, terminal := child.terminal, unreadable := child.unreadable,
          unreadableReason := child.unreadableReason, output := child.output,
          reviewApproved := child.reviewApproved, remediation := child.remediation)
  }

  datatype Event =
    | Activate(unit: Id, child: ChildReport)
    | Progress(unit: Id, child: ChildReport)
    | Hold(unit: Id, hold: Option<DecisionWait>)
    | Adopt(next: WorkGraph)

  ghost function Activated(facts: map<Id, UnitFacts>): set<Id> {
    set a | a in facts.Keys && facts[a].activated
  }

  ghost predicate Enabled(s: State, e: Event) {
    match e
    case Activate(unit, _) =>
      && Projected(s.graph.units, s.facts).Success?
      && unit in Projected(s.graph.units, s.facts).value.frontier
      && unit in Projected(s.graph.units, s.facts).value.units
    case Progress(unit, _) => unit in Activated(s.facts)
    case Hold(_, _) => true
    case Adopt(next) => MutationAllowed(s.graph, next, Activated(s.facts))
  }

  /** An activation records the digest the projection gave; a report never touches it. */
  ghost function Next(s: State, e: Event): State
    requires Enabled(s, e)
  {
    match e
    case Activate(unit, child) =>
      var digest := Projected(s.graph.units, s.facts).value.units[unit].inputsDigest;
      var fact := FactsOf(s.facts, unit).(activated := true, activationInputsDigest := digest);
      s.(facts := s.facts[unit := WithChild(fact, child)])
    case Progress(unit, child) => s.(facts := s.facts[unit := WithChild(FactsOf(s.facts, unit), child)])
    case Hold(unit, hold) => s.(facts := s.facts[unit := FactsOf(s.facts, unit).(awaitingDecision := hold)])
    case Adopt(next) => s.(graph := next)
  }

  ghost predicate Initial(s: State) {
    ValidGraph(s.graph) && s.graph.objectivePlan.None? && Activated(s.facts) == {}
  }

  ghost predicate Step(s: State, s': State) {
    exists e :: Enabled(s, e) && s' == Next(s, e)
  }

  ghost predicate StepAt(states: seq<State>, i: int)
    requires 0 <= i < |states| - 1
  {
    Step(states[i], states[i + 1])
  }

  ghost predicate Run(states: seq<State>) {
    && states != []
    && Initial(states[0])
    && forall i | 0 <= i < |states| - 1 :: StepAt(states, i)
  }

  /** A run taken up at any state that meets the invariant. */
  ghost predicate Going(states: seq<State>) {
    && states != []
    && Invariant(states[0])
    && forall i | 0 <= i < |states| - 1 :: StepAt(states, i)
  }

  /** The activated units are units, and what they depend on is activated too. */
  ghost predicate Invariant(s: State) {
    && ValidGraph(s.graph) && s.graph.objectivePlan.None?
    && (forall a | a in Activated(s.facts) :: IsUnit(s.graph.units, a))
    && (forall a, d | a in Activated(s.facts) && d in Deps(UnitGraph(s.graph.units), a) :: d in Activated(s.facts))
  }

  lemma ValidIsProjectable(g: WorkGraph)
    requires ValidGraph(g)
    ensures Projectable(g.units)
  {
    ValidGraphClosed(g);
  }

  // ---------------------------------------------------------------- one step

  /** What is activated stays activated, under the digest it was activated against. */
  lemma ActivationKept(s: State, e: Event, a: Id)
    requires Enabled(s, e) && a in Activated(s.facts)
    requires Invariant(s)
    ensures a in Activated(Next(s, e).facts)
    ensures Next(s, e).facts[a].activationInputsDigest == s.facts[a].activationInputsDigest
  {
    if e.Activate? && e.unit == a {
      ActivateReady(s, e.unit);
    }
  }

  lemma {:induction false} FrontierReady(units: seq<WorkUnit>, facts: map<Id, UnitFacts>, unit: Id)
    requires Projectable(units) && Projected(units, facts).Success? && unit in Projected(units, facts).value.frontier
    ensures IsUnit(units, unit) && unit in Verdicts0(units, facts) && Verdicts0(units, facts)[unit].projection.state == Ready
  {
    ProjectedMeans(units, facts);
    FrontierListed(Verdicts0(units, facts), unit);
    UnitGraphEntries(units);
  }

  lemma ActivateReady(s: State, unit: Id)
    requires Invariant(s)
    requires Projected(s.graph.units, s.facts).Success? && unit in Projected(s.graph.units, s.facts).value.frontier
    ensures IsUnit(s.graph.units, unit) && unit !in Activated(s.facts)
    ensures forall d | d in Deps(UnitGraph(s.graph.units), unit) :: d in Activated(s.facts)
  {
    var units := s.graph.units;
    var vs := Verdicts0(units, s.facts);
    ValidIsProjectable(s.graph);
    FrontierReady(units, s.facts, unit);
    PassSolves(units, s.facts);
    ReadyExactly(units, s.facts, vs, unit);
    forall d | d in Deps(UnitGraph(units), unit) ensures d in Activated(s.facts) {
      SatisfiedStep(units, s.facts, vs, d);
    }
  }

  lemma KeptUnit(g: WorkGraph, next: WorkGraph, activated: set<Id>, a: Id)
    requires DistinctUnits(g.units) && MutationAllowed(g, next, activated)
    requires a in activated && IsUnit(g.units, a)
    ensures IsUnit(next.units, a)
    ensures SameUnit(UnitOf(g.units, a), UnitOf(next.units, a))
    ensures UnitOf(g.units, a).id == a == UnitOf(next.units, a).id
  {
    var i :| 0 <= i < |g.units| && g.units[i].id == a;
    assert Kept(g.units[i], next.units);
    var j :| 0 <= j < |next.units| && next.units[j].id == a && SameUnit(g.units[i], next.units[j]);
    UnitOfExactly(g.units, i);
    UnitOfExactly(next.units, j);
  }

  lemma SameDependencies(g: WorkGraph, next: WorkGraph, a: Id)
    requires DistinctUnits(g.units) && DistinctUnits(next.units) && IsUnit(g.units, a) && IsUnit(next.units, a)
    requires SameUnit(UnitOf(g.units, a), UnitOf(next.units, a))
    ensures forall d :: d in Deps(UnitGraph(g.units), a) <==> d in Deps(UnitGraph(next.units), a)
  {
    UnitDependencies(g.units, a);
    UnitDependencies(next.units, a);
    SortSorts(UnitOf(g.units, a).dependsOn);
    SortSorts(UnitOf(next.units, a).dependsOn);
  }

  lemma AdoptKeepsInvariant(s: State, next: WorkGraph)
    requires Invariant(s) && MutationAllowed(s.graph, next, Activated(s.facts))
    ensures Invariant(s.(graph := next))
  {
    forall a | a in Activated(s.facts)
      ensures IsUnit(next.units, a)
      ensures forall d | d in Deps(UnitGraph(next.units), a) :: d in Activated(s.facts)
    {
      KeptUnit(s.graph, next, Activated(s.facts), a);
      SameDependencies(s.graph, next, a);
    }
  }

  lemma ActivateKeepsInvariant(s: State, unit: Id, child: ChildReport)
    requires Invariant(s) && Enabled(s, Activate(unit, child))
    ensures Invariant(Next(s, Activate(unit, child)))
  {
    ActivateReady(s, unit);
    assert Activated(Next(s, Activate(unit, child)).facts) == Activated(s.facts) + {unit};
    InvariantGrows(s, Next(s, Activate(unit, child)), unit);
  }

  lemma InvariantGrows(s: State, s': State, unit: Id)
    requires Invariant(s) && s'.graph == s.graph && Activated(s'.facts) == Activated(s.facts) + {unit}
    requires IsUnit(s.graph.units, unit) && forall d | d in Deps(UnitGraph(s.graph.units), unit) :: d in Activated(s.facts)
    ensures Invariant(s')
  {
  }

  lemma StepKeepsInvariant(s: State, e: Event)
    requires Invariant(s) && Enabled(s, e)
    ensures Invariant(Next(s, e))
  {
    match e
    case Activate(unit, child) =>
      ActivateKeepsInvariant(s, unit, child);
    case Progress(unit, child) =>
      assert Activated(Next(s, e).facts) == Activated(s.facts);
    case Hold(unit, hold) =>
      assert Activated(Next(s, e).facts) == Activated(s.facts);
    case Adopt(next) =>
      AdoptKeepsInvariant(s, next);
  }

  // ---------------------------------------------------------------- whole runs

  lemma {:induction false} GoingKeepsInvariant(states: seq<State>, n: nat)
    requires Going(states) && n < |states|
    ensures Invariant(states[n])
  {
    if n > 0 {
      GoingKeepsInvariant(states, n - 1);
      assert StepAt(states, n - 1);
      var e :| Enabled(states[n - 1], e) && states[n] == Next(states[n - 1], e);
      StepKeepsInvariant(states[n - 1], e);
    }
  }

  /** Over every run, the activated units are dependency-closed units of the adopted revision. */
  lemma {:induction false} RunKeepsInvariant(states: seq<State>, n: nat)
    requires Run(states) && n < |states|
    ensures Going(states) && Invariant(states[n])
  {
    GoingKeepsInvariant(states, n);
  }

  /** Adopting a revision never changes the verdict, and so the projection, of an activated unit. */
  lemma AdoptionPreservesProjection(s: State, next: WorkGraph, a: Id)
    requires Invariant(s) && MutationAllowed(s.graph, next, Activated(s.facts)) && a in Activated(s.facts)
    ensures a in Verdicts0(s.graph.units, s.facts) && a in Verdicts0(next.units, s.facts)
    ensures Verdicts0(next.units, s.facts)[a] == Verdicts0(s.graph.units, s.facts)[a]
  {
    var part := Activated(s.facts);
    ValidIsProjectable(s.graph);
    ValidIsProjectable(next);
    PassSolves(s.graph.units, s.facts);
    PassSolves(next.units, s.facts);
    forall b | b in part
      ensures IsUnit(next.units, b) && SameUnit(UnitOf(s.graph.units, b), UnitOf(next.units, b))
      ensures forall d | d in UnitOf(s.graph.units, b).dependsOn :: d in part
    {
      KeptUnit(s.graph, next, part, b);
      UnitDependencies(s.graph.units, b);
    }
    SharedVerdicts(part, s.graph.units, s.facts, Verdicts0(s.graph.units, s.facts), next.units, s.facts, Verdicts0(next.units, s.facts));
  }

  /** What a step may not do to a unit activated before it. */
  ghost predicate Frozen(s: State, s': State, a: Id) {
    && a in Activated(s.facts) && a in Activated(s'.facts)
    && s.facts[a].activationInputsDigest == s'.facts[a].activationInputsDigest
    && SameUnit(UnitOf(s.graph.units, a), UnitOf(s'.graph.units, a))
  }

  lemma StepFreezes(s: State, e: Event, a: Id)
    requires Invariant(s) && Enabled(s, e) && a in Activated(s.facts)
    ensures Frozen(s, Next(s, e), a)
  {
    ActivationKept(s, e, a);
    if e.Adopt? { KeptUnit(s.graph, e.next, Activated(s.facts), a); }
  }

  lemma {:induction false} RunFreezesOnce(states: seq<State>, i: nat, a: Id)
    requires Going(states) && i + 1 < |states| && a in Activated(states[i].facts)
    ensures Frozen(states[i], states[i + 1], a)
  {
    GoingKeepsInvariant(states, i);
    assert StepAt(states, i);
    var e :| Enabled(states[i], e) && states[i + 1] == Next(states[i], e);
    StepFreezes(states[i], e, a);
  }

  lemma FrozenSelf(s: State, a: Id)
    requires a in Activated(s.facts)
    ensures Frozen(s, s, a)
  {
  }

  lemma FrozenOn(s: State, s': State, s'': State, a: Id)
    requires Frozen(s, s', a) && Frozen(s', s'', a)
    ensures Frozen(s, s'', a)
  {
  }

  /**
    Over every run, wherever it is taken up, a unit once activated stays activated against the
    same inputs, and every later revision states the same issue, role, purpose, review gate
    and dependencies for it.
   */
  lemma {:induction false} RunFreezesActivated(states: seq<State>, i: nat, j: nat, a: Id)
    requires Going(states) && i <= j < |states| && a in Activated(states[i].facts)
    ensures Frozen(states[i], states[j], a)
    decreases j
  {
    if i < j {
      RunFreezesActivated(states, i, j - 1, a);
      RunFreezesOnce(states, j - 1, a);
      FrozenOn(states[i], states[j - 1], states[j], a);
    } else {
      FrozenSelf(states[i], a);
    }
  }

  /** A unit is activated against exactly what its dependencies present, so it does not start out invalidated. */
  lemma ActivationIsCurrent(s: State, unit: Id, child: ChildReport)
    requires Invariant(s) && Enabled(s, Activate(unit, child))
    ensures var s' := Next(s, Activate(unit, child));
            && unit in Verdicts0(s'.graph.units, s'.facts)
            && Verdicts0(s'.graph.units, s'.facts)[unit].projection.state
               == if child.unreadable || !KnownItem(child.item) then Unknown else Child(child.item)
  {
    var s' := Next(s, Activate(unit, child));
    var units := s.graph.units;
    var g := UnitGraph(units);
    ActivateReady(s, unit);
    ValidIsProjectable(s.graph);
    ProjectedMeans(units, s.facts);
    PassSolves(units, s'.facts);
    UnitGraphEntries(units);
    UnitDependencies(units, unit);
    var vs, vs' := Verdicts0(units, s.facts), Verdicts0(units, s'.facts);
    FrontierListed(vs, unit);
    ReadyExactly(units, s.facts, vs, unit);
    var deps := UnitOf(units, unit).dependsOn;
    forall d | d in deps ensures d in vs && d in vs' && vs[d] == vs'[d] && FactsOf(s.facts, d) == FactsOf(s'.facts, d) {
      if d == unit || Reaches(g, d, unit) {
        ReachesVia(g, unit, d, unit);
      }
      NonInterference(units, s.facts, unit, s'.facts[unit], d);
    }
    SameVerdictsRead(deps, s.facts, vs, s'.facts, vs');
    SameConsumed(deps, s.facts, Known(vs), deps, s'.facts, Known(vs'));
    ConsumedExactly(deps, s.facts, Known(vs));
  }
}
