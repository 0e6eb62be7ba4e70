/** Which dead units can be satisfied after all, by nothing but what child runs still report, and which never can. */
module Revivals {
  import opened Ids
  import opened Graphs
  import opened Kahn
  import opened WorkGraphs
  import opened Projection
  import opened ProjectionLaws
  import opened DeathLaws
  import opened WorkGraphRuns

  /** The unit itself, or something it depends on. */
  ghost predicate Behind(units: seq<WorkUnit>, a: Id, b: Id) {
    b == a || Reaches(UnitGraph(units), a, b)
  }

  /** A unit behind another that has recorded what it consumes. */
  ghost predicate Recorder(units: seq<WorkUnit>, facts: map<Id, UnitFacts>, a: Id, b: Id) {
    Behind(units, a, b) && FactsOf(facts, b).activated
  }

  /** Facts that keep what activation fixed. Whatever a child reports may differ, and more units may be activated. */
  ghost predicate Later(facts: map<Id, UnitFacts>, facts': map<Id, UnitFacts>) {
    forall b | FactsOf(facts, b).activated ::
      FactsOf(facts', b).activated && FactsOf(facts', b).activationInputsDigest == FactsOf(facts, b).activationInputsDigest
  }

  /** What an activated unit recorded that it consumed. */
  ghost function Recorded(facts: map<Id, UnitFacts>, b: Id): seq<WorkUnitInput> {
    var digest := FactsOf(facts, b).activationInputsDigest;
    if digest.Some? then digest.value.inputs else []
  }

  /** Its record lists exactly its dependencies. */
  ghost predicate RecordListsDependencies(units: seq<WorkUnit>, facts: map<Id, UnitFacts>, b: Id) {
    var deps := Sort(Deps(UnitGraph(units), b));
    && FactsOf(facts, b).activationInputsDigest.Some?
    && |Recorded(facts, b)| == |deps|
    && forall i | 0 <= i < |deps| :: Recorded(facts, b)[i].unit == deps[i]
  }

  ghost predicate SameOutputs(facts: map<Id, UnitFacts>, b: Id, c: Id) {
    forall x, y | x in Recorded(facts, b) && y in Recorded(facts, c) && x.unit == y.unit :: x.output == y.output
  }

  /** Behind a unit, every activated unit recorded its dependencies, and no two recorded different outputs of one unit. */
  ghost predicate RecordsAgree(units: seq<WorkUnit>, facts: map<Id, UnitFacts>, a: Id) {
    && (forall b | Recorder(units, facts, a, b) :: RecordListsDependencies(units, facts, b))
    && forall b, c | Recorder(units, facts, a, b) && Recorder(units, facts, a, c) :: SameOutputs(facts, b, c)
  }

  // ---------------------------------------------------------------- satisfaction needs agreement

  /** A satisfied unit recorded what its dependencies present. */
  lemma {:induction false} SatisfiedDigest(units: seq<WorkUnit>, facts: map<Id, UnitFacts>, vs: Verdicts, b: Id)
    requires DistinctUnits(units) && Solves(units, facts, vs) && b in Satisfied(vs)
    ensures FactsOf(facts, b).activationInputsDigest == Some(InputsDigest(SatisfiedInputs(Sort(Deps(UnitGraph(units), b)), facts, Known(vs))))
  {
    UnitGraphEntries(units);
    UnitDependencies(units, b);
    SatisfiedStep(units, facts, vs, b);
    ConsumedExactly(UnitOf(units, b).dependsOn, facts, Known(vs));
  }

  /** What dependencies present is their own outputs, ascending. */
  lemma {:induction false} PresentedOutputs(units: seq<WorkUnit>, facts: map<Id, UnitFacts>, vs: Verdicts, deps: seq<Id>)
    requires DistinctUnits(units) && Solves(units, facts, vs) && forall d | d in deps :: d in Satisfied(vs)
    ensures |SatisfiedInputs(deps, facts, Known(vs))| == |deps|
    ensures forall i | 0 <= i < |deps| :: FactsOf(facts, deps[i]).output.Some?
              && SatisfiedInputs(deps, facts, Known(vs))[i] == WorkUnitInput(deps[i], FactsOf(facts, deps[i]).output.value)
  {
    forall d | d in Satisfied(vs) ensures FactsOf(facts, d).output.Some? { SatisfiedStep(units, facts, vs, d); }
    InputsExactly(deps, facts, Known(vs));
    assert forall i | 0 <= i < |deps| :: deps[i] in deps;
  }

  lemma {:induction false} SatisfiedRecord(units: seq<WorkUnit>, facts: map<Id, UnitFacts>, vs: Verdicts, b: Id)
    requires DistinctUnits(units) && Solves(units, facts, vs) && b in Satisfied(vs)
    ensures RecordListsDependencies(units, facts, b)
    ensures forall x | x in Recorded(facts, b) :: FactsOf(facts, x.unit).output == Some(x.output)
  {
    var deps := Sort(Deps(UnitGraph(units), b));
    SatisfiedStep(units, facts, vs, b);
    SortSorts(Deps(UnitGraph(units), b));
    SatisfiedDigest(units, facts, vs, b);
    PresentedOutputs(units, facts, vs, deps);
  }

  lemma {:induction false} SatisfiedAgree(units: seq<WorkUnit>, facts: map<Id, UnitFacts>, facts': map<Id, UnitFacts>, vs: Verdicts, a: Id)
    requires DistinctUnits(units) && Solves(units, facts', vs) && a in Satisfied(vs) && Later(facts, facts')
    ensures RecordsAgree(units, facts, a)
  {
    forall b | Recorder(units, facts, a, b)
      ensures Recorded(facts, b) == Recorded(facts', b)
      ensures RecordListsDependencies(units, facts, b)
      ensures forall x | x in Recorded(facts, b) :: FactsOf(facts', x.unit).output == Some(x.output)
    {
      if b != a { UpstreamSatisfied(units, facts', vs, a, b); }
      SatisfiedRecord(units, facts', vs, b);
    }
  }

  // ---------------------------------------------------------------- agreement suffices

  ghost predicate Records(units: seq<WorkUnit>, facts: map<Id, UnitFacts>, a: Id, b: Id, x: WorkUnitInput) {
    Recorder(units, facts, a, b) && x in Recorded(facts, b)
  }

  ghost predicate NamesOutput(units: seq<WorkUnit>, facts: map<Id, UnitFacts>, a: Id, d: Id, output: UnitOutput) {
    exists b :: Records(units, facts, a, b, WorkUnitInput(d, output))
  }

  /** The output the records behind a unit agree on, or any where none is recorded. */
  ghost function AgreedOutput(units: seq<WorkUnit>, facts: map<Id, UnitFacts>, a: Id, d: Id): UnitOutput {
    if exists output :: NamesOutput(units, facts, a, d, output) then
      var output :| NamesOutput(units, facts, a, d, output);
      output
    else UnitOutput(0, 0, 0, 0, 0)
  }

  ghost function AgreedInputs(units: seq<WorkUnit>, facts: map<Id, UnitFacts>, a: Id, deps: seq<Id>): (inputs: seq<WorkUnitInput>)
    ensures |inputs| == |deps|
    ensures forall i | 0 <= i < |deps| :: inputs[i] == WorkUnitInput(deps[i], AgreedOutput(units, facts, a, deps[i]))
  {
    seq(|deps|, i requires 0 <= i < |deps| => WorkUnitInput(deps[i], AgreedOutput(units, facts, a, deps[i])))
  }

  /** Every child has completed with the agreed output; what was activated keeps its record. */
  ghost function Revived(units: seq<WorkUnit>, facts: map<Id, UnitFacts>, a: Id): map<Id, UnitFacts> {
    facts + map b | b in UnitGraph(units).Keys :: RevivedUnit(units, facts, a, b)
  }

  ghost function RevivedUnit(units: seq<WorkUnit>, facts: map<Id, UnitFacts>, a: Id, b: Id): UnitFacts {
    var recorded := if FactsOf(facts, b).activated then FactsOf(facts, b).activationInputsDigest
                    else Some(InputsDigest(AgreedInputs(units, facts, a, Sort(Deps(UnitGraph(units), b)))));
    UnitFacts(true, recorded, Completed, true, false, 0, Some(AgreedOutput(units, facts, a, b)), None, true, 0)
  }

  lemma {:induction false} RecordIsAgreed(units: seq<WorkUnit>, facts: map<Id, UnitFacts>, a: Id, b: Id)
    requires RecordsAgree(units, facts, a) && Behind(units, a, b)
    ensures RevivedUnit(units, facts, a, b).activationInputsDigest
         == Some(InputsDigest(AgreedInputs(units, facts, a, Sort(Deps(UnitGraph(units), b)))))
  {
    if FactsOf(facts, b).activated {
      var deps := Sort(Deps(UnitGraph(units), b));
      assert RecordListsDependencies(units, facts, b);
      forall i | 0 <= i < |deps| ensures Recorded(facts, b)[i] == WorkUnitInput(deps[i], AgreedOutput(units, facts, a, deps[i])) {
        var x := Recorded(facts, b)[i];
        assert Records(units, facts, a, b, x) && x.unit == deps[i];
        AgreedOn(units, facts, a, b, x);
      }
      assert Recorded(facts, b) == AgreedInputs(units, facts, a, deps);
    }
  }

  lemma {:induction false} AgreedOn(units: seq<WorkUnit>, facts: map<Id, UnitFacts>, a: Id, b: Id, x: WorkUnitInput)
    requires RecordsAgree(units, facts, a) && Records(units, facts, a, b, x)
    ensures AgreedOutput(units, facts, a, x.unit) == x.output
  {
    assert Records(units, facts, a, b, WorkUnitInput(x.unit, x.output));
    assert NamesOutput(units, facts, a, x.unit, x.output);
    var y := WorkUnitInput(x.unit, AgreedOutput(units, facts, a, x.unit));
    var c :| Records(units, facts, a, c, y);
    assert SameOutputs(facts, b, c);
  }

  /** The unit has completed with the agreed output, on the record the agreement gives it. */
  ghost predicate Fits(units: seq<WorkUnit>, facts: map<Id, UnitFacts>, a: Id, f: map<Id, UnitFacts>, b: Id) {
    var fact := FactsOf(f, b);
    && fact.activated && !fact.unreadable && fact.item == Completed && fact.reviewApproved
    && fact.output == Some(AgreedOutput(units, facts, a, b))
    && fact.activationInputsDigest == Some(InputsDigest(AgreedInputs(units, facts, a, Sort(Deps(UnitGraph(units), b)))))
  }

  lemma {:induction false} FittingInputs(units: seq<WorkUnit>, facts: map<Id, UnitFacts>, a: Id, f: map<Id, UnitFacts>, deps: seq<Id>, vs: Verdicts)
    requires DistinctUnits(units) && Solves(units, f, vs) && forall d | d in deps :: d in Satisfied(vs) && Fits(units, facts, a, f, d)
    ensures SatisfiedInputs(deps, f, Known(vs)) == AgreedInputs(units, facts, a, deps)
  {
    PresentedOutputs(units, f, vs, deps);
    var inputs := SatisfiedInputs(deps, f, Known(vs));
    forall i | 0 <= i < |deps| ensures inputs[i] == AgreedInputs(units, facts, a, deps)[i] { assert deps[i] in deps; }
  }

  /** Dependencies that fit present the agreed inputs. */
  lemma {:induction false} FittingConsumes(units: seq<WorkUnit>, facts: map<Id, UnitFacts>, a: Id, f: map<Id, UnitFacts>, b: Id, vs: Verdicts)
    requires DistinctUnits(units) && Solves(units, f, vs) && IsUnit(units, b)
    requires forall d | d in Deps(UnitGraph(units), b) :: d in Satisfied(vs) && Fits(units, facts, a, f, d)
    ensures ConsumedBy(UnitOf(units, b).dependsOn, f, Known(vs)) == Present(AgreedInputs(units, facts, a, Sort(Deps(UnitGraph(units), b))))
  {
    UnitDependencies(units, b);
    ConsumedExactly(UnitOf(units, b).dependsOn, f, Known(vs));
    SortSorts(Deps(UnitGraph(units), b));
    FittingInputs(units, facts, a, f, Sort(Deps(UnitGraph(units), b)), vs);
  }

  lemma {:induction false} FittingStep(units: seq<WorkUnit>, facts: map<Id, UnitFacts>, a: Id, f: map<Id, UnitFacts>, b: Id, vs: Verdicts)
    requires DistinctUnits(units) && Solves(units, f, vs) && b in vs && Fits(units, facts, a, f, b)
    requires forall d | d in Deps(UnitGraph(units), b) :: d in Satisfied(vs) && Fits(units, facts, a, f, d)
    ensures b in Satisfied(vs)
  {
    UnitGraphEntries(units);
    UnitDependencies(units, b);
    FittingConsumes(units, facts, a, f, b, vs);
  }

  /** A unit is satisfied where everything behind it fits. */
  lemma {:induction false} FittingSatisfied(units: seq<WorkUnit>, facts: map<Id, UnitFacts>, a: Id, f: map<Id, UnitFacts>, k: nat, vs: Verdicts)
    requires Projectable(units) && Solves(units, f, vs) && k < |Order(UnitGraph(units))|
    requires forall c | Behind(units, Order(UnitGraph(units))[k], c) :: Fits(units, facts, a, f, c)
    ensures Order(UnitGraph(units))[k] in Satisfied(vs)
    decreases k
  {
    var g := UnitGraph(units);
    var b := Order(g)[k];
    OrderLength(g);
    forall d | d in Deps(g, b) ensures d in Satisfied(vs) && Fits(units, facts, a, f, d) {
      OrderFromDependencies(g, {}, k, d);
      var j :| 0 <= j < k && Order(g)[j] == d;
      ReachesEdge(g, b, d);
      assert Behind(units, b, d);
      forall c | Behind(units, d, c) ensures Fits(units, facts, a, f, c) { BehindFurther(units, b, d, c); }
      FittingSatisfied(units, facts, a, f, j, vs);
    }
    assert Behind(units, b, b);
    FittingStep(units, facts, a, f, b, vs);
  }

  lemma {:induction false} BehindFurther(units: seq<WorkUnit>, a: Id, b: Id, c: Id)
    requires Behind(units, a, b) && Behind(units, b, c)
    ensures Behind(units, a, c)
  {
    if b != a && c != b { ReachesTransitive(UnitGraph(units), a, b, c); }
  }

  /** Where a unit stands in the order. */
  lemma {:induction false} PlaceIn(units: seq<WorkUnit>, a: Id) returns (k: nat)
    requires Projectable(units) && IsUnit(units, a)
    ensures k < |Order(UnitGraph(units))| && Order(UnitGraph(units))[k] == a
  {
    var g := UnitGraph(units);
    CompleteIffAcyclic(g);
    UnitGraphEntries(units);
    OrderIsDependencyFirst(g);
    assert a in Elements(Order(g));
    k :| 0 <= k < |Order(g)| && Order(g)[k] == a;
  }

  lemma {:induction false} BehindIsUnit(units: seq<WorkUnit>, a: Id, b: Id)
    requires Projectable(units) && IsUnit(units, a) && Behind(units, a, b)
    ensures IsUnit(units, b)
  {
    UnitGraphEntries(units);
    if b != a { ClosedUnderReach(UnitGraph(units), UnitGraph(units).Keys, a, b); }
  }

  lemma {:induction false} RevivedFits(units: seq<WorkUnit>, facts: map<Id, UnitFacts>, a: Id, b: Id)
    requires Projectable(units) && IsUnit(units, a) && RecordsAgree(units, facts, a) && Behind(units, a, b)
    ensures Fits(units, facts, a, Revived(units, facts, a), b)
  {
    BehindIsUnit(units, a, b);
    UnitGraphEntries(units);
    RecordIsAgreed(units, facts, a, b);
    assert FactsOf(Revived(units, facts, a), b) == RevivedUnit(units, facts, a, b);
  }

  lemma {:induction false} RevivedLater(units: seq<WorkUnit>, facts: map<Id, UnitFacts>, a: Id)
    requires Projectable(units)
    ensures Later(facts, Revived(units, facts, a))
    ensures Projected(units, Revived(units, facts, a)).Success?
  {
    var facts' := Revived(units, facts, a);
    ProjectedMeans(units, facts');
    var vs := Verdicts0(units, facts');
    forall b | b in vs ensures !vs[b].incoherent { assert FactsOf(facts', b).output.Some?; }
  }

  /**
    A unit, dead or not, can still come to be satisfied without any activated unit being
    activated anew exactly when the records behind it agree: only then do child reports exist
    under which it is.
   */
  lemma {:induction false} RevivableExactly(units: seq<WorkUnit>, facts: map<Id, UnitFacts>, a: Id)
    requires Projectable(units) && IsUnit(units, a)
    ensures RecordsAgree(units, facts, a) <==>
              exists facts' :: Later(facts, facts') && Projected(units, facts').Success? && a in Satisfied(Verdicts0(units, facts'))
  {
    if RecordsAgree(units, facts, a) {
      var f := Revived(units, facts, a);
      RevivedLater(units, facts, a);
      PassSolves(units, f);
      forall c | Behind(units, a, c) ensures Fits(units, facts, a, f, c) { RevivedFits(units, facts, a, c); }
      var k := PlaceIn(units, a);
      FittingSatisfied(units, facts, a, f, k, Verdicts0(units, f));
    }
    if facts' :| Later(facts, facts') && Projected(units, facts').Success? && a in Satisfied(Verdicts0(units, facts')) {
      PassSolves(units, facts');
      SatisfiedAgree(units, facts, facts', Verdicts0(units, facts'), a);
    }
  }

  // ---------------------------------------------------------------- over runs

  /** A set closed under the dependencies of one graph, all of which the other has too. */
  ghost predicate SharedEdges(g: Graph, h: Graph, s: set<Id>) {
    forall x, d | x in s && d in Deps(g, x) :: d in s && d in Deps(h, x)
  }

  lemma SharedEdge(g: Graph, h: Graph, s: set<Id>, x: Id, d: Id)
    requires SharedEdges(g, h, s) && x in s && d in Deps(g, x)
    ensures d in s && d in Deps(h, x)
  {
  }

  lemma {:induction false} SharedReach(g: Graph, h: Graph, s: set<Id>, a: Id, b: Id)
    requires SharedEdges(g, h, s) && a in s && Reaches(g, a, b)
    ensures b in s && Reaches(h, a, b)
  {
    var p :| IsPath(g, p) && p[0] == a && p[|p| - 1] == b;
    forall i | 0 <= i < |p| - 1 ensures Edge(h, p, i) {
      PathStays(g, s, p, i);
      assert Edge(g, p, i);
      SharedEdge(g, h, s, p[i], p[i + 1]);
    }
    PathStays(g, s, p, |p| - 1);
    assert IsPath(h, p);
  }

  lemma {:induction false} FrozenDependencies(states: seq<State>, i: nat, j: nat, b: Id)
    requires Going(states) && i <= j < |states| && b in Activated(states[i].facts)
    ensures Sort(Deps(UnitGraph(states[i].graph.units), b)) == Sort(Deps(UnitGraph(states[j].graph.units), b))
    ensures forall d | d in Deps(UnitGraph(states[i].graph.units), b) ::
              d in Activated(states[i].facts) && d in Deps(UnitGraph(states[j].graph.units), b)
  {
    GoingKeepsInvariant(states, i);
    GoingKeepsInvariant(states, j);
    RunFreezesActivated(states, i, j, b);
    ValidIsProjectable(states[i].graph);
    ValidIsProjectable(states[j].graph);
    UnitDependencies(states[i].graph.units, b);
    UnitDependencies(states[j].graph.units, b);
    SortSorts(Deps(UnitGraph(states[i].graph.units), b));
    SortSorts(Deps(UnitGraph(states[j].graph.units), b));
  }

  lemma {:induction false} FrozenEdges(states: seq<State>, i: nat, j: nat)
    requires Going(states) && i <= j < |states|
    ensures SharedEdges(UnitGraph(states[i].graph.units), UnitGraph(states[j].graph.units), Activated(states[i].facts))
  {
    forall x, d | x in Activated(states[i].facts) && d in Deps(UnitGraph(states[i].graph.units), x)
      ensures d in Activated(states[i].facts) && d in Deps(UnitGraph(states[j].graph.units), x)
    {
      FrozenDependencies(states, i, j, x);
    }
  }

  /** Everything behind an activated unit stays behind it, with the record it has. */
  lemma {:induction false} BehindStays(states: seq<State>, i: nat, j: nat, a: Id, b: Id)
    requires Going(states) && i <= j < |states| && a in Activated(states[i].facts) && Behind(states[i].graph.units, a, b)
    ensures Recorder(states[j].graph.units, states[j].facts, a, b) && Recorded(states[j].facts, b) == Recorded(states[i].facts, b)
    ensures RecordListsDependencies(states[j].graph.units, states[j].facts, b) ==> RecordListsDependencies(states[i].graph.units, states[i].facts, b)
  {
    var g, h := UnitGraph(states[i].graph.units), UnitGraph(states[j].graph.units);
    FrozenEdges(states, i, j);
    if b != a { SharedReach(g, h, Activated(states[i].facts), a, b); }
    FrozenDependencies(states, i, j, b);
    RunFreezesActivated(states, i, j, b);
  }

  /**
    Over every run, from any state that meets the invariant and whatever is reported, held,
    activated or revised: an activated unit behind which two records disagree is never
    satisfied again.
   */
  lemma {:induction false} DisagreementIsFinal(states: seq<State>, i: nat, j: nat, a: Id)
    requires Going(states) && i <= j < |states| && a in Activated(states[i].facts)
    requires !RecordsAgree(states[i].graph.units, states[i].facts, a)
    ensures a !in Satisfied(Verdicts0(states[j].graph.units, states[j].facts))
  {
    var units, units' := states[i].graph.units, states[j].graph.units;
    var facts, facts' := states[i].facts, states[j].facts;
    GoingKeepsInvariant(states, j);
    ValidIsProjectable(states[j].graph);
    PassSolves(units', facts');
    if a in Satisfied(Verdicts0(units', facts')) {
      SatisfiedAgree(units', facts', facts', Verdicts0(units', facts'), a);
      forall b | Recorder(units, facts, a, b)
        ensures Recorder(units', facts', a, b) && Recorded(facts', b) == Recorded(facts, b) && RecordListsDependencies(units, facts, b)
      {
        BehindStays(states, i, j, a, b);
      }
      forall b, c | Recorder(units, facts, a, b) && Recorder(units, facts, a, c) ensures SameOutputs(facts, b, c) {
        assert SameOutputs(facts', b, c);
      }
    }
  }
}
