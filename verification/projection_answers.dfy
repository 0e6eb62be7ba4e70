/** What a projection tells its reader about each unit, in terms of the graph, the facts and the projection itself. */
module ProjectionAnswers {
  import opened Ids
  import opened Graphs
  import opened Kahn
  import opened WorkGraphs
  import opened Projection
  import opened ProjectionLaws

  /** The unit is shown as completed, and its review, where it needs one, has approved what it made. */
  ghost predicate Delivers(units: seq<WorkUnit>, facts: map<Id, UnitFacts>, p: WorkGraphProjection, d: Id) {
    && d in p.units && p.units[d].state == Child(Completed)
    && exists i :: 0 <= i < |units| && units[i].id == d && (units[i].requiresReview ==> FactsOf(facts, d).reviewApproved)
  }

  ghost predicate AllDeliver(units: seq<WorkUnit>, facts: map<Id, UnitFacts>, p: WorkGraphProjection, deps: seq<Id>) {
    forall d | d in deps :: Delivers(units, facts, p, d)
  }

  /** One entry for each dependency, ascending, with the output recorded about it. */
  ghost predicate ListsOutputs(facts: map<Id, UnitFacts>, deps: seq<Id>, inputs: seq<WorkUnitInput>) {
    && multiset(Consumers(inputs)) == multiset(deps)
    && (forall i, j | 0 <= i < j < |inputs| :: inputs[i].unit <= inputs[j].unit)
    && forall i | 0 <= i < |inputs| ::
         inputs[i].unit in facts && facts[inputs[i].unit].output == Some(inputs[i].output)
  }

  ghost function Consumers(inputs: seq<WorkUnitInput>): seq<Id> {
    seq(|inputs|, i requires 0 <= i < |inputs| => inputs[i].unit)
  }

  /** Inputs are shown for every unit whose dependencies all deliver and whose child, if it has one, can be read. */
  ghost predicate ShowsInputs(units: seq<WorkUnit>, facts: map<Id, UnitFacts>, p: WorkGraphProjection, unit: WorkUnit)
    requires unit.id in p.units
  {
    AllDeliver(units, facts, p, unit.dependsOn) && p.units[unit.id].state != Unknown
  }

  lemma {:induction false} InputsListed(deps: seq<Id>, facts: map<Id, UnitFacts>, known: Decided)
    requires OutputsPresent(facts, known.satisfied) && ConsumedBy(deps, facts, known).Present?
    ensures ListsOutputs(facts, deps, ConsumedBy(deps, facts, known).inputs)
  {
    var sorted := Sort(deps);
    SortSorts(deps);
    ConsumedExactly(deps, facts, known);
    InputsExactly(sorted, facts, known);
    assert Consumers(ConsumedBy(deps, facts, known).inputs) == sorted;
    forall i | 0 <= i < |sorted| ensures sorted[i] in facts { assert FactsOf(facts, sorted[i]).output.Some?; }
  }

  lemma {:induction false} VerdictShown(units: seq<WorkUnit>, facts: map<Id, UnitFacts>, i: nat)
    requires Projectable(units) && i < |units| && Projected(units, facts).Success?
    ensures var p, vs := Projected(units, facts).value, Verdicts0(units, facts);
            && units[i].id in p.units && units[i].id in vs && !vs[units[i].id].incoherent
            && p.units[units[i].id] == vs[units[i].id].projection
            && vs[units[i].id] == Decide(units[i], FactsOf(facts, units[i].id), ConsumedBy(units[i].dependsOn, facts, Known(vs)))
  {
    ProjectedMeans(units, facts);
    UnitGraphEntries(units);
    UnitOfExactly(units, i);
  }

  lemma OneUnit(units: seq<WorkUnit>, i: nat, k: nat)
    requires DistinctUnits(units) && i < |units| && k < |units| && units[i].id == units[k].id
    ensures i == k
  {
  }

  /** The projection's own word on a unit is what later units are decided from. */
  lemma {:induction false} DeliversExactly(units: seq<WorkUnit>, facts: map<Id, UnitFacts>, i: nat)
    requires Projectable(units) && i < |units| && Projected(units, facts).Success?
    ensures Delivers(units, facts, Projected(units, facts).value, units[i].id) <==> units[i].id in Satisfied(Verdicts0(units, facts))
  {
    VerdictShown(units, facts, i);
    forall k | 0 <= k < |units| && units[k].id == units[i].id ensures k == i { OneUnit(units, i, k); }
  }

  lemma {:induction false} DependencyIsUnit(units: seq<WorkUnit>, i: nat, d: Id) returns (k: nat)
    requires Projectable(units) && i < |units| && d in units[i].dependsOn
    ensures k < |units| && units[k].id == d
  {
    UnitGraphEntries(units);
    assert d in Deps(UnitGraph(units), units[i].id);
    assert d in UnitGraph(units) && IsUnit(units, d);
    k :| 0 <= k < |units| && units[k].id == d;
  }

  lemma {:induction false} DependenciesDeliver(units: seq<WorkUnit>, facts: map<Id, UnitFacts>, i: nat)
    requires Projectable(units) && i < |units| && Projected(units, facts).Success?
    ensures var consumed := ConsumedBy(units[i].dependsOn, facts, Known(Verdicts0(units, facts)));
            && (consumed.Present? <==> AllDeliver(units, facts, Projected(units, facts).value, units[i].dependsOn))
            && (consumed.Present? ==> ListsOutputs(facts, units[i].dependsOn, consumed.inputs))
  {
    var deps, known := units[i].dependsOn, Known(Verdicts0(units, facts));
    ConsumedExactly(deps, facts, known);
    SatisfiedHaveOutputs(units, facts, Order(UnitGraph(units)), |Order(UnitGraph(units))|);
    forall d | d in deps ensures Delivers(units, facts, Projected(units, facts).value, d) <==> d in known.satisfied {
      var k := DependencyIsUnit(units, i, d);
      DeliversExactly(units, facts, k);
    }
    if ConsumedBy(deps, facts, known).Present? { InputsListed(deps, facts, known); }
  }

  lemma {:induction false} UnitVerdict(units: seq<WorkUnit>, facts: map<Id, UnitFacts>, i: nat)
    requires Projectable(units) && i < |units| && Projected(units, facts).Success?
    ensures var p := Projected(units, facts).value;
            var consumed := ConsumedBy(units[i].dependsOn, facts, Known(Verdicts0(units, facts)));
            && units[i].id in p.units && units[i].id in Verdicts0(units, facts)
            && p.units[units[i].id] == Decide(units[i], FactsOf(facts, units[i].id), consumed).projection
            && (consumed.Present? <==> AllDeliver(units, facts, p, units[i].dependsOn))
            && (consumed.Present? ==> ListsOutputs(facts, units[i].dependsOn, consumed.inputs))
            && !Decide(units[i], FactsOf(facts, units[i].id), consumed).incoherent
  {
    VerdictShown(units, facts, i);
    DependenciesDeliver(units, facts, i);
  }

  /**
    The inputs a unit is shown, field by field: one entry for each dependency, ascending, with
    the output recorded about it, under the digest of exactly those entries; and nothing at
    all where a dependency does not deliver or the unit's child cannot be read.
   */
  lemma {:induction false} InputsShown(units: seq<WorkUnit>, facts: map<Id, UnitFacts>, i: nat)
    requires Projectable(units) && i < |units| && Projected(units, facts).Success?
    ensures var p := Projected(units, facts).value;
            && units[i].id in p.units
            && var shown := p.units[units[i].id];
            if ShowsInputs(units, facts, p, units[i]) then
              ListsOutputs(facts, units[i].dependsOn, shown.inputs) && shown.inputsDigest == Some(InputsDigest(shown.inputs))
            else shown.inputs == [] && shown.inputsDigest == None
  {
    UnitVerdict(units, facts, i);
  }

  ghost predicate CanBeRead(fact: UnitFacts) {
    !fact.unreadable && forall name :: fact.item != UnknownItem(name)
  }

  /** The state each unit is shown in, and what is shown with it, from the facts and the other units' states. */
  lemma {:induction false} StateShown(units: seq<WorkUnit>, facts: map<Id, UnitFacts>, i: nat)
    requires Projectable(units) && i < |units| && Projected(units, facts).Success?
    ensures var p, fact := Projected(units, facts).value, FactsOf(facts, units[i].id);
            && units[i].id in p.units
            && var shown, ready := p.units[units[i].id], AllDeliver(units, facts, p, units[i].dependsOn);
            && shown.state == (
                 if !fact.activated then
                   if !ready then Blocked else if fact.awaitingDecision.Some? then AwaitingDecision else Ready
                 else if !CanBeRead(fact) then Unknown
                 else if ready && fact.activationInputsDigest == Some(InputsDigest(shown.inputs)) then Child(fact.item)
                 else Invalidated)
            && shown.awaitingDecision == (if shown.state == AwaitingDecision then fact.awaitingDecision else None)
            && shown.remediation == (if shown.state == Child(fact.item) then fact.remediation else 0)
            && (shown.state == Child(Completed) ==> fact.output.Some?)
            && (units[i].id in p.frontier <==> shown.state == Ready)
  {
    UnitVerdict(units, facts, i);
    ProjectedMeans(units, facts);
    FrontierListed(Verdicts0(units, facts), units[i].id);
    assert KnownItem(FactsOf(facts, units[i].id).item) <==> forall name :: FactsOf(facts, units[i].id).item != UnknownItem(name);
  }

  // ---------------------------------------------------------------- the reasons shown

  ghost predicate Late(units: seq<WorkUnit>, facts: map<Id, UnitFacts>, p: WorkGraphProjection, deps: seq<Id>, d: Id) {
    d in deps && !Delivers(units, facts, p, d)
  }

  ghost predicate Lost(units: seq<WorkUnit>, facts: map<Id, UnitFacts>, p: WorkGraphProjection, deps: seq<Id>, d: Id) {
    Late(units, facts, p, deps, d) && d in Dead(Verdicts0(units, facts))
  }

  /** The least dead dependency that does not deliver, or without one the least that does not deliver, and the state it is in. */
  ghost predicate NamesLate(units: seq<WorkUnit>, facts: map<Id, UnitFacts>, p: WorkGraphProjection, deps: seq<Id>, reason: Reason) {
    match reason
    case DependencyDead(d, state) =>
      && Lost(units, facts, p, deps, d) && (forall e | Lost(units, facts, p, deps, e) :: d <= e)
      && d in p.units && state == p.units[d].state
    case DependencyWaiting(d, state) =>
      && Late(units, facts, p, deps, d) && (forall e | Late(units, facts, p, deps, e) :: d <= e)
      && (forall e :: !Lost(units, facts, p, deps, e))
      && d in p.units && state == p.units[d].state
    case _ => false
  }

  lemma {:induction false} FirstsAreLeast(deps: seq<Id>, known: Decided)
    requires Ascending(deps)
    ensures FirstDead(deps, known).Some? ==>
              forall e | e in deps && e !in known.satisfied && e in known.dead :: FirstDead(deps, known).value <= e
    ensures FirstUnsatisfied(deps, known).Some? ==>
              forall e | e in deps && e !in known.satisfied :: FirstUnsatisfied(deps, known).value <= e
  {
    if deps != [] {
      FirstsAreLeast(deps[1..], known);
      assert forall d :: d in deps <==> d == deps[0] || d in deps[1..];
    }
  }

  lemma {:induction false} LateExactly(units: seq<WorkUnit>, facts: map<Id, UnitFacts>, i: nat, d: Id)
    requires Projectable(units) && i < |units| && Projected(units, facts).Success?
    ensures Late(units, facts, Projected(units, facts).value, units[i].dependsOn, d) <==>
              d in Sort(units[i].dependsOn) && d !in Satisfied(Verdicts0(units, facts))
    ensures d in units[i].dependsOn ==>
              && d in Projected(units, facts).value.units && d in Verdicts0(units, facts)
              && Projected(units, facts).value.units[d] == Verdicts0(units, facts)[d].projection
  {
    SortSorts(units[i].dependsOn);
    if d in units[i].dependsOn {
      var k := DependencyIsUnit(units, i, d);
      DeliversExactly(units, facts, k);
      VerdictShown(units, facts, k);
    }
  }

  lemma {:induction false} LateNamed(units: seq<WorkUnit>, facts: map<Id, UnitFacts>, i: nat)
    requires Projectable(units) && i < |units| && Projected(units, facts).Success?
    ensures var consumed := ConsumedBy(units[i].dependsOn, facts, Known(Verdicts0(units, facts)));
            consumed.Absent? ==> NamesLate(units, facts, Projected(units, facts).value, units[i].dependsOn, consumed.reason)
  {
    var known := Known(Verdicts0(units, facts));
    var sorted := Sort(units[i].dependsOn);
    SortSorts(units[i].dependsOn);
    FirstsAreLeast(sorted, known);
    FirstsAreListed(sorted, known);
    forall d
      ensures Late(units, facts, Projected(units, facts).value, units[i].dependsOn, d) <==> d in sorted && d !in known.satisfied
      ensures d in units[i].dependsOn ==> d in Projected(units, facts).value.units && Projected(units, facts).value.units[d].state == StateOf(known, d)
    {
      LateExactly(units, facts, i, d);
    }
  }

  /** The reason shown with each state; a unit that is ready or shows its child's own state has none. */
  lemma {:induction false} ReasonShown(units: seq<WorkUnit>, facts: map<Id, UnitFacts>, i: nat)
    requires Projectable(units) && i < |units| && Projected(units, facts).Success?
    ensures var p, fact, deps := Projected(units, facts).value, FactsOf(facts, units[i].id), units[i].dependsOn;
            && units[i].id in p.units
            && var shown := p.units[units[i].id];
            match shown.state
            case Blocked => shown.reason.Some? && NamesLate(units, facts, p, deps, shown.reason.value)
            case AwaitingDecision => fact.awaitingDecision.Some? && shown.reason == Some(Held(fact.awaitingDecision.value))
            case Unknown => shown.reason == Some(if fact.unreadable then UnreadableChild(fact.unreadableReason) else UnrecognizedItem(fact.item))
            case Invalidated =>
              if AllDeliver(units, facts, p, deps) then shown.reason == Some(InputsReplaced)
              else shown.reason.Some? && shown.reason.value.NoLongerHolds? && NamesLate(units, facts, p, deps, shown.reason.value.cause)
            case Ready => shown.reason == None
            case Child(_) => shown.reason == None
            case Undecided => false
  {
    UnitVerdict(units, facts, i);
    LateNamed(units, facts, i);
  }

  // ---------------------------------------------------------------- what is shown at all

  /** Nothing but units is shown, and the frontier is ascending. */
  lemma {:induction false} OnlyUnitsShown(units: seq<WorkUnit>, facts: map<Id, UnitFacts>)
    requires Projectable(units) && Projected(units, facts).Success?
    ensures forall a :: a in Projected(units, facts).value.units <==> exists i :: 0 <= i < |units| && units[i].id == a
    ensures forall a | a in Projected(units, facts).value.frontier :: a in Projected(units, facts).value.units
    ensures StrictlyAscending(Projected(units, facts).value.frontier)
  {
    ProjectedMeans(units, facts);
    UnitGraphEntries(units);
    forall a | a in Projected(units, facts).value.frontier ensures a in Verdicts0(units, facts) {
      FrontierListed(Verdicts0(units, facts), a);
    }
    ListingLists(ReadyUnits(Verdicts0(units, facts)));
  }

  lemma {:induction false} FirstIncoherentIs(vs: Verdicts, order: seq<Id>)
    ensures FirstIncoherent(vs, order).Some? ==> FirstIncoherent(vs, order).value in vs && vs[FirstIncoherent(vs, order).value].incoherent
  {
    if order != [] { FirstIncoherentIs(vs, order[1..]); }
  }

  lemma Contradicted(unit: WorkUnit, fact: UnitFacts, consumed: Consumed)
    requires Decide(unit, fact, consumed).incoherent
    ensures fact.activated && CanBeRead(fact) && fact.item == Completed && fact.output.None?
  {
  }

  /** A refusal of a valid graph names a unit whose child is recorded as completed without an output. */
  lemma {:induction false} RefusalNames(units: seq<WorkUnit>, facts: map<Id, UnitFacts>)
    requires Projectable(units) && Projected(units, facts).Failure?
    ensures Projected(units, facts).error.CompletedWithoutOutput?
    ensures var a := Projected(units, facts).error.unit;
            && IsUnit(units, a) && FactsOf(facts, a).activated && CanBeRead(FactsOf(facts, a))
            && FactsOf(facts, a).item == Completed && FactsOf(facts, a).output.None?
  {
    var vs := Verdicts0(units, facts);
    CompleteIffAcyclic(UnitGraph(units));
    FirstIncoherentIs(vs, Order(UnitGraph(units)));
    PassSolves(units, facts);
    UnitGraphEntries(units);
    Contradicted(UnitOf(units, Projected(units, facts).error.unit), FactsOf(facts, Projected(units, facts).error.unit),
                 ConsumedBy(UnitOf(units, Projected(units, facts).error.unit).dependsOn, facts, Known(vs)));
  }
}
