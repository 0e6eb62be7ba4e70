/** What the one-pass projection means, and how satisfaction and death travel along dependency paths. */
module ProjectionLaws {
  import opened Ids
  import opened Graphs
  import opened Kahn
  import opened Folds
  import opened WorkGraphs
  import opened Projection

  ghost function Verdicts0(units: seq<WorkUnit>, facts: map<Id, UnitFacts>): Verdicts {
    VerdictsOf(units, facts, Order(UnitGraph(units)))
  }

  // ---------------------------------------------------------------- what a verdict reads

  /** Nothing the decision reads about these dependencies differs. */
  ghost predicate SameReading(deps: seq<Id>, facts: map<Id, UnitFacts>, known: Decided, facts': map<Id, UnitFacts>, known': Decided) {
    forall d | d in deps ::
      && (d in known.satisfied <==> d in known'.satisfied)
      && (d in known.dead <==> d in known'.dead)
      && StateOf(known, d) == StateOf(known', d)
      && (d in known.satisfied ==> FactsOf(facts, d).output == FactsOf(facts', d).output)
  }

  lemma {:induction false} SameGather(deps: seq<Id>, facts: map<Id, UnitFacts>, known: Decided, facts': map<Id, UnitFacts>, known': Decided)
    requires SameReading(deps, facts, known, facts', known')
    ensures FirstDead(deps, known) == FirstDead(deps, known')
    ensures FirstUnsatisfied(deps, known) == FirstUnsatisfied(deps, known')
    ensures SatisfiedInputs(deps, facts, known) == SatisfiedInputs(deps, facts', known')
  {
    if deps != [] {
      assert deps[0] in deps && forall d | d in deps[1..] :: d in deps;
      SameGather(deps[1..], facts, known, facts', known');
    }
  }

  lemma {:induction false} FirstsAreListed(deps: seq<Id>, known: Decided)
    ensures FirstDead(deps, known).Some? ==>
              FirstDead(deps, known).value in deps && FirstDead(deps, known).value !in known.satisfied && FirstDead(deps, known).value in known.dead
    ensures FirstUnsatisfied(deps, known).Some? ==>
              FirstUnsatisfied(deps, known).value in deps && FirstUnsatisfied(deps, known).value !in known.satisfied
    ensures FirstUnsatisfied(deps, known).None? <==> forall d | d in deps :: d in known.satisfied
    ensures FirstDead(deps, known).None? <==> forall d | d in deps :: d in known.satisfied || d !in known.dead
  {
    if deps != [] {
      FirstsAreListed(deps[1..], known);
      assert deps == [deps[0]] + deps[1..];
      assert forall d :: d in deps <==> d == deps[0] || d in deps[1..];
    }
  }

  lemma {:induction false} SameConsumed(deps: seq<Id>, facts: map<Id, UnitFacts>, known: Decided, deps': seq<Id>, facts': map<Id, UnitFacts>, known': Decided)
    requires Sort(deps) == Sort(deps') && SameReading(deps, facts, known, facts', known')
    ensures ConsumedBy(deps, facts, known) == ConsumedBy(deps', facts', known')
  {
    SortSorts(deps);
    var sorted := Sort(deps);
    SameGather(sorted, facts, known, facts', known');
    FirstsAreListed(sorted, known);
  }

  /** Equal verdicts and facts on the dependencies make equal verdicts. */
  lemma {:induction false} SameVerdictsRead(deps: seq<Id>, facts: map<Id, UnitFacts>, vs: Verdicts, facts': map<Id, UnitFacts>, vs': Verdicts)
    requires forall d | d in deps :: d in vs && d in vs' && vs[d] == vs'[d] && FactsOf(facts, d) == FactsOf(facts', d)
    ensures SameReading(deps, facts, Known(vs), facts', Known(vs'))
  {
  }

  // ---------------------------------------------------------------- the pass solves the recursive definition

  lemma {:induction false} PassReadsFinal(units: seq<WorkUnit>, facts: map<Id, UnitFacts>, i: nat)
    requires Projectable(units) && i < |Order(UnitGraph(units))|
    ensures VerdictGiven(units, facts, VerdictsTo(units, facts, Order(UnitGraph(units)), i), Order(UnitGraph(units))[i])
         == VerdictGiven(units, facts, Verdicts0(units, facts), Order(UnitGraph(units))[i])
  {
    var g := UnitGraph(units);
    var order := Order(g);
    OrderOrdersUnits(units);
    var unit := UnitOf(units, order[i]);
    UnitGraphEntries(units);
    var k :| 0 <= k < |units| && units[k].id == order[i];
    UnitOfExactly(units, k);
    var before, after := VerdictsTo(units, facts, order, i), Verdicts0(units, facts);
    forall d | d in unit.dependsOn ensures d in before && d in after && before[d] == after[d] {
      assert d in Deps(g, order[i]);
      OrderFromDependencies(g, {}, i, d);
      var j :| 0 <= j < i && order[..i][j] == d;
      FoldKeeps(Deciding(units, facts), order, j, i);
      FoldKeeps(Deciding(units, facts), order, j, |order|);
    }
    SameVerdictsRead(unit.dependsOn, facts, before, facts, after);
    SameConsumed(unit.dependsOn, facts, Known(before), unit.dependsOn, facts, Known(after));
  }

  /** The single pass over the sorted units computes the recursive definition. */
  lemma {:induction false} PassSolves(units: seq<WorkUnit>, facts: map<Id, UnitFacts>)
    requires Projectable(units)
    ensures Solves(units, facts, Verdicts0(units, facts))
  {
    var g := UnitGraph(units);
    var order := Order(g);
    UnitGraphEntries(units);
    CompleteIffAcyclic(g);
    OrderLength(g);
    FoldKeys(Deciding(units, facts), order, |order|);
    var vs := Verdicts0(units, facts);
    assert vs.Keys == g.Keys by {
      forall a ensures a in vs <==> a in g { assert a in g <==> a in Settled(g); }
    }
    forall a | a in vs ensures vs[a] == VerdictGiven(units, facts, vs, a) {
      var i :| 0 <= i < |order| && order[i] == a;
      PassReadsFinal(units, facts, i);
      FoldKeeps(Deciding(units, facts), order, i, |order|);
    }
  }

  lemma {:induction false} UnitDependencies(units: seq<WorkUnit>, a: Id)
    requires DistinctUnits(units) && IsUnit(units, a)
    ensures UnitOf(units, a).id == a && UnitOf(units, a).dependsOn == Deps(UnitGraph(units), a)
  {
    UnitGraphEntries(units);
    var i :| 0 <= i < |units| && units[i].id == a;
    UnitOfExactly(units, i);
  }

  // ---------------------------------------------------------------- locality

  /** A set of units that two graphs state alike, closed under their dependencies, with the same facts. */
  ghost predicate SharedPart(part: set<Id>, units: seq<WorkUnit>, facts: map<Id, UnitFacts>, units': seq<WorkUnit>, facts': map<Id, UnitFacts>) {
    forall a | a in part ::
      && IsUnit(units, a) && IsUnit(units', a)
      && Sort(UnitOf(units, a).dependsOn) == Sort(UnitOf(units', a).dependsOn)
      && UnitOf(units, a).requiresReview == UnitOf(units', a).requiresReview
      && FactsOf(facts, a) == FactsOf(facts', a)
      && forall d | d in UnitOf(units, a).dependsOn :: d in part
  }

  lemma {:induction false} SharedStep(units: seq<WorkUnit>, facts: map<Id, UnitFacts>, vs: Verdicts,
                   units': seq<WorkUnit>, facts': map<Id, UnitFacts>, vs': Verdicts, a: Id)
    requires Sort(UnitOf(units, a).dependsOn) == Sort(UnitOf(units', a).dependsOn)
    requires UnitOf(units, a).requiresReview == UnitOf(units', a).requiresReview
    requires FactsOf(facts, a) == FactsOf(facts', a)
    requires forall d | d in UnitOf(units, a).dependsOn :: d in vs && d in vs' && vs[d] == vs'[d] && FactsOf(facts, d) == FactsOf(facts', d)
    ensures VerdictGiven(units, facts, vs, a) == VerdictGiven(units', facts', vs', a)
  {
    var deps := UnitOf(units, a).dependsOn;
    SameVerdictsRead(deps, facts, vs, facts', vs');
    SameConsumed(deps, facts, Known(vs), UnitOf(units', a).dependsOn, facts', Known(vs'));
  }

  lemma {:induction false} SharedVerdictAt(part: set<Id>, units: seq<WorkUnit>, facts: map<Id, UnitFacts>, vs: Verdicts,
                          units': seq<WorkUnit>, facts': map<Id, UnitFacts>, vs': Verdicts, i: nat)
    requires Projectable(units) && Solves(units, facts, vs)
    requires Solves(units', facts', vs') && part <= vs.Keys && part <= vs'.Keys
    requires SharedPart(part, units, facts, units', facts')
    requires i < |Order(UnitGraph(units))| && Order(UnitGraph(units))[i] in part
    ensures vs[Order(UnitGraph(units))[i]] == vs'[Order(UnitGraph(units))[i]]
    decreases i
  {
    var g := UnitGraph(units);
    var a := Order(g)[i];
    UnitDependencies(units, a);
    forall d | d in UnitOf(units, a).dependsOn ensures d in part && vs[d] == vs'[d] {
      OrderFromDependencies(g, {}, i, d);
      var j :| 0 <= j < i && Order(g)[..i][j] == d;
      SharedVerdictAt(part, units, facts, vs, units', facts', vs', j);
    }
    SharedStep(units, facts, vs, units', facts', vs', a);
  }

  /** Verdicts agree on everything the two graphs share, whatever differs outside it. */
  lemma {:induction false} SharedVerdicts(part: set<Id>, units: seq<WorkUnit>, facts: map<Id, UnitFacts>, vs: Verdicts,
                       units': seq<WorkUnit>, facts': map<Id, UnitFacts>, vs': Verdicts)
    requires Projectable(units) && Solves(units, facts, vs)
    requires DistinctUnits(units') && Solves(units', facts', vs')
    requires SharedPart(part, units, facts, units', facts')
    ensures forall a | a in part :: a in vs && a in vs' && vs[a] == vs'[a]
  {
    var g := UnitGraph(units);
    UnitGraphEntries(units);
    UnitGraphEntries(units');
    assert part <= vs.Keys && part <= vs'.Keys;
    CompleteIffAcyclic(g);
    OrderLength(g);
    forall a | a in part ensures vs[a] == vs'[a] {
      assert a in Settled(g);
      var i :| 0 <= i < |Order(g)| && Order(g)[i] == a;
      SharedVerdictAt(part, units, facts, vs, units', facts', vs', i);
    }
  }

  lemma {:induction false} WholeIsShared(units: seq<WorkUnit>, facts: map<Id, UnitFacts>)
    requires Projectable(units)
    ensures SharedPart(UnitGraph(units).Keys, units, facts, units, facts)
  {
    UnitGraphEntries(units);
    var part := UnitGraph(units).Keys;
    forall a | a in part ensures IsUnit(units, a) && forall d | d in UnitOf(units, a).dependsOn :: d in part {
      UnitDependencies(units, a);
    }
  }

  /** The recursive definition has one solution. */
  lemma {:induction false} SolutionUnique(units: seq<WorkUnit>, facts: map<Id, UnitFacts>, vs: Verdicts, vs': Verdicts)
    requires Projectable(units) && Solves(units, facts, vs) && Solves(units, facts, vs')
    ensures vs == vs'
  {
    WholeIsShared(units, facts);
    SharedVerdicts(UnitGraph(units).Keys, units, facts, vs, units, facts, vs');
    assert vs.Keys == vs'.Keys;
  }

  /** Changing one unit's facts changes the verdicts of that unit and what depends on it, and nothing else. */
  lemma {:induction false} NonInterference(units: seq<WorkUnit>, facts: map<Id, UnitFacts>, changed: Id, fact: UnitFacts, a: Id)
    requires Projectable(units) && IsUnit(units, a)
    requires a != changed && !Reaches(UnitGraph(units), a, changed)
    ensures a in Verdicts0(units, facts) && a in Verdicts0(units, facts[changed := fact])
    ensures Verdicts0(units, facts)[a] == Verdicts0(units, facts[changed := fact])[a]
  {
    var g := UnitGraph(units);
    UnitGraphEntries(units);
    PassSolves(units, facts);
    PassSolves(units, facts[changed := fact]);
    var part := set x | x in g.Keys && x != changed && !Reaches(g, x, changed);
    forall x | x in part ensures forall d | d in UnitOf(units, x).dependsOn :: d in part {
      UnitDependencies(units, x);
      forall d | d in Deps(g, x) ensures d in part {
        if d == changed { ReachesEdge(g, x, d); }
        if Reaches(g, d, changed) { ReachesVia(g, x, d, changed); }
      }
    }
    SharedVerdicts(part, units, facts, Verdicts0(units, facts), units, facts[changed := fact], Verdicts0(units, facts[changed := fact]));
  }

  // ---------------------------------------------------------------- the result of the pass

  /**
    What a successful pass returns, and when it succeeds: exactly when no unit's facts
    contradict themselves under the recursive definition.
   */
  lemma {:induction false} ProjectedMeans(units: seq<WorkUnit>, facts: map<Id, UnitFacts>)
    requires Projectable(units)
    ensures Solves(units, facts, Verdicts0(units, facts))
    ensures Projected(units, facts).Success? <==> Coherent(Verdicts0(units, facts))
    ensures Projected(units, facts).Success? ==>
              Projected(units, facts).value == WorkGraphProjection(Projections(Verdicts0(units, facts)), Listing(ReadyUnits(Verdicts0(units, facts))))
  {
    var g := UnitGraph(units);
    PassSolves(units, facts);
    UnitGraphEntries(units);
    CompleteIffAcyclic(g);
    OrderOrdersUnits(units);
    var vs := Verdicts0(units, facts);
    var order := Order(g);
    FoldKeys(Deciding(units, facts), order, |order|);
    if Coherent(vs) {
      IncoherentAt(vs, order, |order|);
    } else {
      var a :| a in vs && vs[a].incoherent;
      var i :| 0 <= i < |order| && order[i] == a;
      IncoherentFound(vs, order, i);
    }
  }

  lemma {:induction false} IncoherentFound(vs: Verdicts, order: seq<Id>, i: nat)
    requires i < |order| && order[i] in vs && vs[order[i]].incoherent
    ensures FirstIncoherent(vs, order).Some?
  {
    if i > 0 { IncoherentFound(vs, order[1..], i - 1); }
  }

  /**
    An unreadable, unrecognised or changed child never alters another branch: with neither
    call refused, a unit that does not depend on the changed one is projected alike, and
    stands in or out of the frontier alike.
   */
  lemma {:induction false} ProjectionNonInterference(units: seq<WorkUnit>, facts: map<Id, UnitFacts>, changed: Id, fact: UnitFacts, a: Id)
    requires Projectable(units) && IsUnit(units, a)
    requires a != changed && !Reaches(UnitGraph(units), a, changed)
    requires Projected(units, facts).Success? && Projected(units, facts[changed := fact]).Success?
    ensures var before, after := Projected(units, facts).value, Projected(units, facts[changed := fact]).value;
            && a in before.units && a in after.units && before.units[a] == after.units[a]
            && (a in before.frontier <==> a in after.frontier)
  {
    ProjectedMeans(units, facts);
    ProjectedMeans(units, facts[changed := fact]);
    NonInterference(units, facts, changed, fact, a);
    FrontierListed(Verdicts0(units, facts), a);
    FrontierListed(Verdicts0(units, facts[changed := fact]), a);
  }

  lemma FrontierListed(vs: Verdicts, a: Id)
    ensures a in Listing(ReadyUnits(vs)) <==> a in vs && vs[a].projection.state == Ready
  {
    ListingLists(ReadyUnits(vs));
    assert a in Listing(ReadyUnits(vs)) <==> a in Elements(Listing(ReadyUnits(vs)));
  }

  // ---------------------------------------------------------------- what satisfaction and death mean

  lemma {:induction false} ConsumedExactly(deps: seq<Id>, facts: map<Id, UnitFacts>, known: Decided)
    ensures ConsumedBy(deps, facts, known).Present? <==> forall d | d in deps :: d in known.satisfied
    ensures (ConsumedBy(deps, facts, known).Absent? && ConsumedBy(deps, facts, known).settled) <==>
              exists d :: d in deps && d !in known.satisfied && d in known.dead
  {
    SortSorts(deps);
    var sorted := Sort(deps);
    FirstsAreListed(sorted, known);
    var dead := FirstDead(sorted, known);
    if dead.Some? { assert dead.value in deps; }
  }

  /** The frontier is exactly the units with no child yet, no hold, and every dependency satisfied. */
  lemma {:induction false} ReadyExactly(units: seq<WorkUnit>, facts: map<Id, UnitFacts>, vs: Verdicts, a: Id)
    requires DistinctUnits(units) && Solves(units, facts, vs) && a in vs
    ensures vs[a].projection.state == Ready <==>
              && !FactsOf(facts, a).activated
              && FactsOf(facts, a).awaitingDecision.None?
              && forall d | d in Deps(UnitGraph(units), a) :: d in Satisfied(vs)
  {
    UnitGraphEntries(units);
    UnitDependencies(units, a);
    ConsumedExactly(UnitOf(units, a).dependsOn, facts, Known(vs));
  }

  /** A satisfied unit is an activated, completed child whose dependencies are all satisfied. */
  lemma {:induction false} SatisfiedStep(units: seq<WorkUnit>, facts: map<Id, UnitFacts>, vs: Verdicts, a: Id)
    requires DistinctUnits(units) && Solves(units, facts, vs) && a in Satisfied(vs)
    ensures FactsOf(facts, a).activated && FactsOf(facts, a).item == Completed && FactsOf(facts, a).output.Some?
    ensures a !in Dead(vs)
    ensures forall d | d in Deps(UnitGraph(units), a) :: d in Satisfied(vs)
  {
    UnitGraphEntries(units);
    UnitDependencies(units, a);
    ConsumedExactly(UnitOf(units, a).dependsOn, facts, Known(vs));
  }

  /** Nothing is both satisfied and dead. */
  lemma {:induction false} SatisfiedNotDead(units: seq<WorkUnit>, facts: map<Id, UnitFacts>, vs: Verdicts)
    requires DistinctUnits(units) && Solves(units, facts, vs)
    ensures Satisfied(vs) !! Dead(vs)
  {
    forall a | a in Satisfied(vs) ensures a !in Dead(vs) { SatisfiedStep(units, facts, vs, a); }
  }

  /** Everything a satisfied or runnable unit depends on, however far, is satisfied. */
  lemma {:induction false} UpstreamSatisfied(units: seq<WorkUnit>, facts: map<Id, UnitFacts>, vs: Verdicts, a: Id, b: Id)
    requires DistinctUnits(units) && Solves(units, facts, vs)
    requires a in vs && (vs[a].satisfied || vs[a].projection.state == Ready)
    requires Reaches(UnitGraph(units), a, b)
    ensures b in Satisfied(vs) && FactsOf(facts, b).activated && FactsOf(facts, b).item == Completed
  {
    var g := UnitGraph(units);
    var s := Satisfied(vs);
    forall x, d | x in s && d in Deps(g, x) ensures d in s { SatisfiedStep(units, facts, vs, x); }
    if a in s {
      ClosedUnderReach(g, s, a, b);
    } else {
      ReadyExactly(units, facts, vs, a);
      var d := ReachesFirst(g, a, b);
      if d != b { ClosedUnderReach(g, s, d, b); }
    }
    SatisfiedStep(units, facts, vs, b);
  }

  /** A dead unit makes everything that depends on it dead: no branch below a failure is reported as waiting. */
  lemma {:induction false} DeathPropagates(units: seq<WorkUnit>, facts: map<Id, UnitFacts>, vs: Verdicts, a: Id, b: Id)
    requires DistinctUnits(units) && Closed(UnitGraph(units)) && Solves(units, facts, vs)
    requires a in vs && Reaches(UnitGraph(units), a, b) && b in Dead(vs)
    ensures a in Dead(vs)
  {
    var g := UnitGraph(units);
    UnitGraphEntries(units);
    SatisfiedNotDead(units, facts, vs);
    var alive := set x | x in vs.Keys && !vs[x].dead;
    forall x, d | x in alive && d in Deps(g, x) ensures d in alive {
      UnitDependencies(units, x);
      ConsumedExactly(UnitOf(units, x).dependsOn, facts, Known(vs));
    }
    if a in alive { ClosedUnderReach(g, alive, a, b); }
  }

  /** The inputs a unit is shown are exactly its dependencies, ascending, each with its own output. */
  lemma {:induction false} InputsExactly(deps: seq<Id>, facts: map<Id, UnitFacts>, known: Decided)
    requires OutputsPresent(facts, known.satisfied) && forall d | d in deps :: d in known.satisfied
    ensures |SatisfiedInputs(deps, facts, known)| == |deps|
    ensures forall i | 0 <= i < |deps| ::
              SatisfiedInputs(deps, facts, known)[i] == WorkUnitInput(deps[i], FactsOf(facts, deps[i]).output.value)
  {
    if deps != [] {
      assert deps[0] in deps && forall d | d in deps[1..] :: d in deps;
      InputsExactly(deps[1..], facts, known);
    }
  }
}
