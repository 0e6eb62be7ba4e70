/** Where a dead branch's death comes from, what invalidates an activated unit, and that neither is permanent. */
module DeathLaws {
  import opened Ids
  import opened Graphs
  import opened Kahn
  import opened WorkGraphs
  import opened Projection
  import opened ProjectionLaws
  import Vocabulary

  /** The inputs the unit would consume now are not the ones it recorded when it was activated. */
  ghost predicate InputsReplacedFor(units: seq<WorkUnit>, facts: map<Id, UnitFacts>, vs: Verdicts, b: Id) {
    FactsOf(facts, b).activationInputsDigest != Some(InputsDigest(SatisfiedInputs(Sort(Deps(UnitGraph(units), b)), facts, Known(vs))))
  }

  ghost predicate WaitsOnSome(units: seq<WorkUnit>, vs: Verdicts, b: Id) {
    exists d :: d in Deps(UnitGraph(units), b) && d !in Satisfied(vs)
  }

  /** An activated unit whose own child is readable is invalidated exactly while a dependency is not satisfied or the inputs it would consume now are not the ones it recorded. */
  lemma {:induction false} InvalidatedExactly(units: seq<WorkUnit>, facts: map<Id, UnitFacts>, vs: Verdicts, a: Id)
    requires DistinctUnits(units) && Solves(units, facts, vs) && a in vs
    ensures vs[a].projection.state == Invalidated <==>
              && FactsOf(facts, a).activated && !FactsOf(facts, a).unreadable && KnownItem(FactsOf(facts, a).item)
              && (WaitsOnSome(units, vs, a) || InputsReplacedFor(units, facts, vs, a))
  {
    UnitGraphEntries(units);
    UnitDependencies(units, a);
    ConsumedExactly(UnitOf(units, a).dependsOn, facts, Known(vs));
  }

  /**
    A unit dead on its own account: activated, not satisfied, and either its child has ended,
    or the child is readable and failed, stopped, or no longer runs on what it recorded.
   */
  ghost predicate DiesItself(units: seq<WorkUnit>, facts: map<Id, UnitFacts>, vs: Verdicts, b: Id) {
    var fact := FactsOf(facts, b);
    && b in vs && fact.activated && b !in Satisfied(vs)
    && (fact.terminal
        || (!fact.unreadable && KnownItem(fact.item)
            && (fact.item == Failed || fact.item == Stopped || WaitsOnSome(units, vs, b) || InputsReplacedFor(units, facts, vs, b))))
  }

  lemma {:induction false} DiesItselfExactly(units: seq<WorkUnit>, facts: map<Id, UnitFacts>, vs: Verdicts, b: Id)
    requires DistinctUnits(units) && Solves(units, facts, vs) && b in vs
    ensures DiesItself(units, facts, vs, b) <==>
              NeverSatisfiable(vs[b].projection.state) || (FactsOf(facts, b).activated && FactsOf(facts, b).terminal && !vs[b].satisfied)
  {
    InvalidatedExactly(units, facts, vs, b);
  }

  lemma {:induction false} DeadStep(units: seq<WorkUnit>, facts: map<Id, UnitFacts>, vs: Verdicts, a: Id) returns (d: Id)
    requires DistinctUnits(units) && Solves(units, facts, vs) && a in Dead(vs) && !DiesItself(units, facts, vs, a)
    ensures d in Deps(UnitGraph(units), a) && d in Dead(vs)
  {
    DiesItselfExactly(units, facts, vs, a);
    UnitGraphEntries(units);
    UnitDependencies(units, a);
    ConsumedExactly(UnitOf(units, a).dependsOn, facts, Known(vs));
    d :| d in UnitOf(units, a).dependsOn && d in Dead(vs);
  }

  lemma {:induction false} CauseFrom(units: seq<WorkUnit>, facts: map<Id, UnitFacts>, vs: Verdicts, k: nat) returns (b: Id)
    requires Projectable(units) && Solves(units, facts, vs) && k < |Order(UnitGraph(units))| && Order(UnitGraph(units))[k] in Dead(vs)
    ensures b == Order(UnitGraph(units))[k] || Reaches(UnitGraph(units), Order(UnitGraph(units))[k], b)
    ensures DiesItself(units, facts, vs, b)
    decreases k
  {
    var g := UnitGraph(units);
    var a := Order(g)[k];
    if DiesItself(units, facts, vs, a) {
      b := a;
    } else {
      var d := DeadStep(units, facts, vs, a);
      CompleteIffAcyclic(g);
      OrderIsDependencyFirst(g);
      assert d in Order(g)[..k];
      var j :| 0 <= j < k && Order(g)[j] == d;
      b := CauseFrom(units, facts, vs, j);
      ReachesVia(g, a, d, b);
    }
  }

  lemma {:induction false} DeadHasCause(units: seq<WorkUnit>, facts: map<Id, UnitFacts>, vs: Verdicts, a: Id) returns (b: Id)
    requires Projectable(units) && Solves(units, facts, vs) && a in Dead(vs)
    ensures b == a || Reaches(UnitGraph(units), a, b)
    ensures DiesItself(units, facts, vs, b)
  {
    var g := UnitGraph(units);
    CompleteIffAcyclic(g);
    OrderIsDependencyFirst(g);
    assert a in Elements(Order(g));
    var k :| 0 <= k < |Order(g)| && Order(g)[k] == a;
    b := CauseFrom(units, facts, vs, k);
  }

  /** A unit is dead exactly when it, or something it depends on however far, died on its own account. */
  lemma {:induction false} DeadExactly(units: seq<WorkUnit>, facts: map<Id, UnitFacts>, vs: Verdicts, a: Id)
    requires Projectable(units) && Solves(units, facts, vs) && a in vs
    ensures a in Dead(vs) <==> exists b :: (b == a || Reaches(UnitGraph(units), a, b)) && DiesItself(units, facts, vs, b)
  {
    if a in Dead(vs) { var b := DeadHasCause(units, facts, vs, a); }
    if b :| (b == a || Reaches(UnitGraph(units), a, b)) && DiesItself(units, facts, vs, b) {
      DiesItselfExactly(units, facts, vs, b);
      if b != a { DeathPropagates(units, facts, vs, a, b); }
    }
  }

  // ---------------------------------------------------------------- death is not permanent

  function Upstream(id: Id): WorkUnit {
    WorkUnit(id, 0, Vocabulary.Implementer, Vocabulary.DefaultExecution, 1, [], false)
  }

  function Downstream(id: Id, upstream: Id): WorkUnit {
    WorkUnit(id, 0, Vocabulary.Tester, Vocabulary.DefaultExecution, 2, [upstream], false)
  }

  function Done(output: UnitOutput, inputs: seq<WorkUnitInput>): UnitFacts {
    UnitFacts(true, Some(InputsDigest(inputs)), Completed, true, false, 0, Some(output), None, false, 0)
  }

  lemma TwoUnits(up: Id, down: Id)
    requires up < down
    ensures Projectable([Upstream(up), Downstream(down, up)])
    ensures Deps(UnitGraph([Upstream(up), Downstream(down, up)]), up) == [] && Deps(UnitGraph([Upstream(up), Downstream(down, up)]), down) == [up]
    ensures forall a :: a in UnitGraph([Upstream(up), Downstream(down, up)]) <==> a == up || a == down
  {
    var units := [Upstream(up), Downstream(down, up)];
    var g := UnitGraph(units);
    UnitGraphEntries(units);
    assert units[0].id == up && units[1].id == down;
    assert g[up] == [] && g[down] == [up];
    forall a ensures !Reaches(g, a, a) {
      if Reaches(g, a, a) {
        var d := ReachesFirst(g, a, a);
        assert a == down && d == up;
        if Reaches(g, up, down) {
          var e := ReachesFirst(g, up, down);
        }
      }
    }
  }

  /**
    A dependent of a unit that is for one moment unreadable is reported dead, and alive again
    once the same unit reads as before: with nothing else changed, death is not permanent.
   */
  lemma DeathIsNotPermanent(up: Id, down: Id, output: UnitOutput)
    requires up < down
    ensures var units := [Upstream(up), Downstream(down, up)];
            var facts := map[up := Done(output, []), down := Done(output, [WorkUnitInput(up, output)])];
            var unread := facts[up := facts[up].(unreadable := true)];
            && down in Dead(Verdicts0(units, unread))
            && down in Satisfied(Verdicts0(units, unread[up := facts[up]]))
  {
    var units := [Upstream(up), Downstream(down, up)];
    var facts := map[up := Done(output, []), down := Done(output, [WorkUnitInput(up, output)])];
    var unread := facts[up := facts[up].(unreadable := true)];
    TwoUnits(up, down);
    UnreadKills(up, down, output, unread);
    assert unread[up := facts[up]] == facts;
    ReadRevives(up, down, output, facts);
  }

  lemma UnreadKills(up: Id, down: Id, output: UnitOutput, facts: map<Id, UnitFacts>)
    requires up < down && up in facts && down in facts
    requires facts[up] == Done(output, []).(unreadable := true) && facts[down] == Done(output, [WorkUnitInput(up, output)])
    ensures down in Dead(Verdicts0([Upstream(up), Downstream(down, up)], facts))
  {
    var units := [Upstream(up), Downstream(down, up)];
    TwoUnits(up, down);
    PassSolves(units, facts);
    var vs := Verdicts0(units, facts);
    UnitDependencies(units, up);
    UnitDependencies(units, down);
    assert up in vs && vs[up] == VerdictGiven(units, facts, vs, up);
    assert vs[up].projection.state == Unknown;
    assert up !in Satisfied(vs);
    InvalidatedExactly(units, facts, vs, down);
  }

  lemma ReadRevives(up: Id, down: Id, output: UnitOutput, facts: map<Id, UnitFacts>)
    requires up < down && up in facts && down in facts
    requires facts[up] == Done(output, []) && facts[down] == Done(output, [WorkUnitInput(up, output)])
    ensures down in Satisfied(Verdicts0([Upstream(up), Downstream(down, up)], facts))
  {
    var units := [Upstream(up), Downstream(down, up)];
    TwoUnits(up, down);
    PassSolves(units, facts);
    var vs := Verdicts0(units, facts);
    assert units[0].id == up && units[1].id == down;
    UnitDependencies(units, up);
    UnitDependencies(units, down);
    assert UnitOf(units, up) == Upstream(up) && UnitOf(units, down) == Downstream(down, up);
    assert up in vs && vs[up] == VerdictGiven(units, facts, vs, up);
    assert Sort([]) == [] && SatisfiedInputs([], facts, Known(vs)) == [];
    assert up in Satisfied(vs);
    assert down in vs && vs[down] == VerdictGiven(units, facts, vs, down);
    assert [up][1..] == [] && Sort([up]) == [up];
    assert SatisfiedInputs([up], facts, Known(vs)) == [WorkUnitInput(up, output)];
  }
}
