/** Reviving a unit by a run: reports, holds lifted and activations that lead to its satisfaction wherever the records agree. */
module RevivalRuns {
  import opened Ids
  import opened Graphs
  import opened Kahn
  import opened WorkGraphs
  import opened Projection
  import opened ProjectionLaws
  import opened WorkGraphRuns
  import opened Revivals

  // ---------------------------------------------------------------- getting from one state to another

  /** A run between two states that adopts no revision. */
  ghost predicate Path(states: seq<State>, s: State, t: State) {
    && states != [] && states[0] == s && states[|states| - 1] == t
    && (forall i | 0 <= i < |states| - 1 :: StepAt(states, i))
    && forall i | 0 <= i < |states| :: states[i].graph == s.graph
  }

  ghost predicate GetsTo(s: State, t: State) {
    exists states: seq<State> :: Path(states, s, t)
  }

  lemma GetsToSelf(s: State)
    ensures GetsTo(s, s)
  {
    assert Path([s], s, s);
  }

  lemma {:induction false} GetsToNext(s: State, t: State, e: Event)
    requires GetsTo(s, t) && t.graph == s.graph && Enabled(t, e) && !e.Adopt?
    ensures GetsTo(s, Next(t, e)) && Next(t, e).graph == s.graph
  {
    var states: seq<State> :| Path(states, s, t);
    var longer := states + [Next(t, e)];
    forall i | 0 <= i < |longer| - 1 ensures StepAt(longer, i) {
      if i < |states| - 1 {
        assert StepAt(states, i);
      } else {
        assert longer[i] == t && longer[i + 1] == Next(t, e);
      }
    }
    assert Path(longer, s, Next(t, e));
  }

  // ---------------------------------------------------------------- every child reports

  function Reporting(output: UnitOutput): ChildReport {
    ChildReport(Completed, true, false, 0, Some(output), true, 0)
  }

  /** What a state is once its activated children have reported the agreed outputs. */
  ghost predicate Reported(s: State, a: Id, t: State, left: set<Id>) {
    && Invariant(t) && t.graph == s.graph && Activated(t.facts) == Activated(s.facts)
    && (forall c | c in Activated(s.facts) && c !in left ::
          t.facts[c] == WithChild(s.facts[c], Reporting(AgreedOutput(s.graph.units, s.facts, a, c))))
    && forall c | c in Activated(s.facts) && c in left :: t.facts[c] == s.facts[c]
  }

  lemma {:induction false} OneReports(s: State, a: Id, t: State, left: set<Id>, c: Id)
    requires Reported(s, a, t, left) && left <= Activated(s.facts) && c in left
    ensures Enabled(t, Progress(c, Reporting(AgreedOutput(s.graph.units, s.facts, a, c))))
    ensures Reported(s, a, Next(t, Progress(c, Reporting(AgreedOutput(s.graph.units, s.facts, a, c)))), left - {c})
  {
    var e := Progress(c, Reporting(AgreedOutput(s.graph.units, s.facts, a, c)));
    StepKeepsInvariant(t, e);
    assert Activated(Next(t, e).facts) == Activated(t.facts);
  }

  lemma {:induction false} AllReport(s: State, a: Id, t: State, left: set<Id>) returns (u: State)
    requires GetsTo(s, t) && Reported(s, a, t, left) && left <= Activated(s.facts)
    ensures GetsTo(s, u) && Reported(s, a, u, {})
    decreases |left|
  {
    if left == {} {
      u := t;
    } else {
      var c :| c in left;
      var e := Progress(c, Reporting(AgreedOutput(s.graph.units, s.facts, a, c)));
      OneReports(s, a, t, left, c);
      GetsToNext(s, t, e);
      u := AllReport(s, a, Next(t, e), left - {c});
    }
  }

  // ---------------------------------------------------------------- what is behind is activated in order

  /** Every activated unit has an output, and those behind the unit fit the agreement. */
  ghost predicate Tidy(s: State, a: Id, t: State) {
    && Invariant(t) && t.graph == s.graph
    && (forall c | FactsOf(t.facts, c).activated :: FactsOf(t.facts, c).output.Some?)
    && forall c | Behind(s.graph.units, a, c) && FactsOf(t.facts, c).activated :: Fits(s.graph.units, s.facts, a, t.facts, c)
  }

  lemma {:induction false} ReportedIsTidy(s: State, a: Id, t: State)
    requires Invariant(s) && RecordsAgree(s.graph.units, s.facts, a) && Reported(s, a, t, {})
    ensures Tidy(s, a, t)
  {
    forall c | FactsOf(t.facts, c).activated
      ensures FactsOf(t.facts, c).output.Some?
      ensures Behind(s.graph.units, a, c) ==> Fits(s.graph.units, s.facts, a, t.facts, c)
    {
      assert c in Activated(t.facts);
      if Behind(s.graph.units, a, c) { RecordIsAgreed(s.graph.units, s.facts, a, c); }
    }
  }

  /** Where every activated unit has an output, no unit's facts contradict themselves. */
  lemma {:induction false} OutputsProject(units: seq<WorkUnit>, f: map<Id, UnitFacts>)
    requires Projectable(units) && forall c | FactsOf(f, c).activated :: FactsOf(f, c).output.Some?
    ensures Projected(units, f).Success?
  {
    ProjectedMeans(units, f);
    var vs := Verdicts0(units, f);
    forall c | c in vs ensures !vs[c].incoherent { assert vs[c] == VerdictGiven(units, f, vs, c); }
  }

  /** Of the first `k` units in order, those behind `a` are activated. */
  ghost predicate ActivatedBefore(s: State, a: Id, t: State, k: nat)
    requires k <= |Order(UnitGraph(s.graph.units))|
  {
    forall j | 0 <= j < k && Behind(s.graph.units, a, Order(UnitGraph(s.graph.units))[j]) ::
      FactsOf(t.facts, Order(UnitGraph(s.graph.units))[j]).activated
  }

  /** The next unit in order behind `a`: its dependencies are satisfied and present what is agreed. */
  lemma {:induction false} NextDependencies(s: State, a: Id, t: State, k: nat)
    requires Tidy(s, a, t) && k < |Order(UnitGraph(s.graph.units))| && Behind(s.graph.units, a, Order(UnitGraph(s.graph.units))[k])
    requires ActivatedBefore(s, a, t, k)
    ensures forall d | d in Deps(UnitGraph(s.graph.units), Order(UnitGraph(s.graph.units))[k]) ::
              d in Satisfied(Verdicts0(s.graph.units, t.facts)) && Fits(s.graph.units, s.facts, a, t.facts, d)
  {
    var units := s.graph.units;
    var g := UnitGraph(units);
    var b := Order(g)[k];
    ValidIsProjectable(t.graph);
    PassSolves(units, t.facts);
    forall d | d in Deps(g, b) ensures d in Satisfied(Verdicts0(units, t.facts)) && Fits(units, s.facts, a, t.facts, d) {
      OrderFromDependencies(g, {}, k, d);
      var j :| 0 <= j < k && Order(g)[j] == d;
      ReachesEdge(g, b, d);
      assert Behind(units, b, d);
      BehindFurther(units, a, b, d);
      forall c | Behind(units, d, c) ensures Fits(units, s.facts, a, t.facts, c) {
        BehindFurther(units, a, d, c);
        EarlierActivated(s, a, t, k, j, c);
      }
      assert Behind(units, d, d);
      FittingSatisfied(units, s.facts, a, t.facts, j, Verdicts0(units, t.facts));
    }
  }

  lemma {:induction false} EarlierActivated(s: State, a: Id, t: State, k: nat, j: nat, c: Id)
    requires j < k <= |Order(UnitGraph(s.graph.units))| && Behind(s.graph.units, Order(UnitGraph(s.graph.units))[j], c)
    requires Behind(s.graph.units, a, c)
    requires ActivatedBefore(s, a, t, k)
    ensures FactsOf(t.facts, c).activated
  {
    var g := UnitGraph(s.graph.units);
    if c != Order(g)[j] {
      ReachesEarlier(g, j, c);
      var i :| 0 <= i < j && Order(g)[i] == c;
    }
  }

  lemma {:induction false} HoldLifted(s: State, a: Id, t: State, b: Id)
    requires Tidy(s, a, t)
    ensures Tidy(s, a, Next(t, Hold(b, None)))
    ensures forall c :: FactsOf(Next(t, Hold(b, None)).facts, c).activated <==> FactsOf(t.facts, c).activated
    ensures FactsOf(Next(t, Hold(b, None)).facts, b).awaitingDecision.None?
  {
    var u := Next(t, Hold(b, None));
    StepKeepsInvariant(t, Hold(b, None));
    forall c ensures FactsOf(u.facts, c).activated <==> FactsOf(t.facts, c).activated
             ensures FactsOf(u.facts, c).output == FactsOf(t.facts, c).output {}
    forall c | Behind(s.graph.units, a, c) && FactsOf(u.facts, c).activated ensures Fits(s.graph.units, s.facts, a, u.facts, c) {
      assert Fits(s.graph.units, s.facts, a, t.facts, c);
    }
  }

  /** A unit that nothing holds back stands in the frontier, projected with the agreed inputs. */
  lemma {:induction false} NextInFrontier(s: State, a: Id, t: State, b: Id)
    requires Tidy(s, a, t) && IsUnit(s.graph.units, b) && !FactsOf(t.facts, b).activated && FactsOf(t.facts, b).awaitingDecision.None?
    requires forall d | d in Deps(UnitGraph(s.graph.units), b) ::
               d in Satisfied(Verdicts0(s.graph.units, t.facts)) && Fits(s.graph.units, s.facts, a, t.facts, d)
    ensures Projected(s.graph.units, t.facts).Success?
    ensures var p := Projected(s.graph.units, t.facts).value;
            && b in p.frontier && b in p.units
            && p.units[b].inputsDigest == Some(InputsDigest(AgreedInputs(s.graph.units, s.facts, a, Sort(Deps(UnitGraph(s.graph.units), b)))))
  {
    var units := s.graph.units;
    var vs := Verdicts0(units, t.facts);
    ValidIsProjectable(t.graph);
    OutputsProject(units, t.facts);
    ProjectedMeans(units, t.facts);
    UnitGraphEntries(units);
    FrontierListed(vs, b);
    ReadyExactly(units, t.facts, vs, b);
    FittingConsumes(units, s.facts, a, t.facts, b, vs);
    assert vs[b] == VerdictGiven(units, t.facts, vs, b);
  }

  lemma {:induction false} NextEnabled(s: State, a: Id, t: State, b: Id)
    requires Tidy(s, a, t) && IsUnit(s.graph.units, b) && !FactsOf(t.facts, b).activated && FactsOf(t.facts, b).awaitingDecision.None?
    requires forall d | d in Deps(UnitGraph(s.graph.units), b) ::
               d in Satisfied(Verdicts0(s.graph.units, t.facts)) && Fits(s.graph.units, s.facts, a, t.facts, d)
    ensures Enabled(t, Activate(b, Reporting(AgreedOutput(s.graph.units, s.facts, a, b))))
    ensures var u := Next(t, Activate(b, Reporting(AgreedOutput(s.graph.units, s.facts, a, b))));
            && Invariant(u) && u.graph == s.graph
            && (forall c | c != b :: FactsOf(u.facts, c) == FactsOf(t.facts, c))
            && FactsOf(u.facts, b).activated && FactsOf(u.facts, b).output == Some(AgreedOutput(s.graph.units, s.facts, a, b))
            && Fits(s.graph.units, s.facts, a, u.facts, b)
  {
    NextInFrontier(s, a, t, b);
    var e := Activate(b, Reporting(AgreedOutput(s.graph.units, s.facts, a, b)));
    StepKeepsInvariant(t, e);
  }

  lemma {:induction false} NextActivated(s: State, a: Id, t: State, b: Id)
    requires Tidy(s, a, t) && IsUnit(s.graph.units, b) && !FactsOf(t.facts, b).activated && FactsOf(t.facts, b).awaitingDecision.None?
    requires forall d | d in Deps(UnitGraph(s.graph.units), b) ::
               d in Satisfied(Verdicts0(s.graph.units, t.facts)) && Fits(s.graph.units, s.facts, a, t.facts, d)
    ensures Enabled(t, Activate(b, Reporting(AgreedOutput(s.graph.units, s.facts, a, b))))
    ensures var u := Next(t, Activate(b, Reporting(AgreedOutput(s.graph.units, s.facts, a, b))));
            Tidy(s, a, u) && forall c :: FactsOf(u.facts, c).activated <==> FactsOf(t.facts, c).activated || c == b
  {
    NextEnabled(s, a, t, b);
    var u := Next(t, Activate(b, Reporting(AgreedOutput(s.graph.units, s.facts, a, b))));
    SameFits(s, a, t, u, b);
  }

  lemma {:induction false} SameFits(s: State, a: Id, t: State, u: State, b: Id)
    requires Tidy(s, a, t) && Invariant(u) && u.graph == s.graph
    requires forall c | c != b :: FactsOf(u.facts, c) == FactsOf(t.facts, c)
    requires FactsOf(u.facts, b).output.Some? && Fits(s.graph.units, s.facts, a, u.facts, b)
    ensures Tidy(s, a, u)
  {
    forall c | Behind(s.graph.units, a, c) && FactsOf(u.facts, c).activated ensures Fits(s.graph.units, s.facts, a, u.facts, c) {
      if c != b { assert Fits(s.graph.units, s.facts, a, t.facts, c); }
    }
  }

  /** A hold lifted, and the next unit activated. */
  lemma {:induction false} OneActivated(s: State, a: Id, t: State, k: nat) returns (v: State)
    requires Invariant(s) && GetsTo(s, t) && Tidy(s, a, t) && k < |Order(UnitGraph(s.graph.units))|
    requires Behind(s.graph.units, a, Order(UnitGraph(s.graph.units))[k]) && !FactsOf(t.facts, Order(UnitGraph(s.graph.units))[k]).activated
    requires ActivatedBefore(s, a, t, k)
    ensures GetsTo(s, v) && Tidy(s, a, v)
    ensures forall c :: FactsOf(v.facts, c).activated <==> FactsOf(t.facts, c).activated || c == Order(UnitGraph(s.graph.units))[k]
  {
    var b := Order(UnitGraph(s.graph.units))[k];
    var u := Next(t, Hold(b, None));
    HoldLifted(s, a, t, b);
    GetsToNext(s, t, Hold(b, None));
    NextDependencies(s, a, u, k);
    ValidIsProjectable(s.graph);
    OrderOrdersUnits(s.graph.units);
    NextActivated(s, a, u, b);
    var e := Activate(b, Reporting(AgreedOutput(s.graph.units, s.facts, a, b)));
    GetsToNext(s, u, e);
    v := Next(u, e);
  }

  lemma {:induction false} OneFurther(s: State, a: Id, t: State, k: nat) returns (v: State)
    requires Invariant(s) && GetsTo(s, t) && Tidy(s, a, t) && k < |Order(UnitGraph(s.graph.units))|
    requires ActivatedBefore(s, a, t, k)
    ensures GetsTo(s, v) && Tidy(s, a, v) && ActivatedBefore(s, a, v, k + 1)
  {
    var b := Order(UnitGraph(s.graph.units))[k];
    if Behind(s.graph.units, a, b) && !FactsOf(t.facts, b).activated {
      v := OneActivated(s, a, t, k);
    } else {
      v := t;
    }
  }

  lemma {:induction false} AllActivated(s: State, a: Id, t: State, k: nat) returns (u: State)
    requires Invariant(s) && GetsTo(s, t) && Tidy(s, a, t) && k <= |Order(UnitGraph(s.graph.units))|
    requires ActivatedBefore(s, a, t, k)
    ensures GetsTo(s, u) && Tidy(s, a, u)
    ensures ActivatedBefore(s, a, u, |Order(UnitGraph(s.graph.units))|)
    decreases |Order(UnitGraph(s.graph.units))| - k
  {
    if k == |Order(UnitGraph(s.graph.units))| {
      u := t;
    } else {
      var v := OneFurther(s, a, t, k);
      u := AllActivated(s, a, v, k + 1);
    }
  }

  /** Where the records agree, a run leads to the unit's satisfaction. */
  lemma {:induction false} AgreementRevives(s: State, a: Id) returns (t: State)
    requires Invariant(s) && IsUnit(s.graph.units, a) && RecordsAgree(s.graph.units, s.facts, a)
    ensures GetsTo(s, t) && t.graph == s.graph && a in Satisfied(Verdicts0(s.graph.units, t.facts))
  {
    var units := s.graph.units;
    var g := UnitGraph(units);
    GetsToSelf(s);
    var reported := AllReport(s, a, s, Activated(s.facts));
    ReportedIsTidy(s, a, reported);
    t := AllActivated(s, a, reported, 0);
    ValidIsProjectable(s.graph);
    forall c | Behind(units, a, c) ensures Fits(units, s.facts, a, t.facts, c) {
      BehindIsUnit(units, a, c);
      var j := PlaceIn(units, c);
    }
    var k := PlaceIn(units, a);
    PassSolves(units, t.facts);
    FittingSatisfied(units, s.facts, a, t.facts, k, Verdicts0(units, t.facts));
  }

  // ---------------------------------------------------------------- exactly then

  /** Any run, revisions included, from a state to one in which the unit is satisfied. */
  ghost predicate SatisfiedAlong(states: seq<State>, s: State, a: Id) {
    && Going(states) && states[0] == s
    && var last := states[|states| - 1]; a in Satisfied(Verdicts0(last.graph.units, last.facts))
  }

  lemma {:induction false} PathKeepsRecords(s: State, t: State)
    requires Invariant(s) && GetsTo(s, t)
    ensures t.graph == s.graph && Invariant(t) && Later(s.facts, t.facts)
  {
    var states: seq<State> :| Path(states, s, t);
    assert Going(states);
    GoingKeepsInvariant(states, |states| - 1);
    forall c | FactsOf(s.facts, c).activated
      ensures FactsOf(t.facts, c).activated && FactsOf(t.facts, c).activationInputsDigest == FactsOf(s.facts, c).activationInputsDigest
    {
      assert c in Activated(states[0].facts);
      RunFreezesActivated(states, 0, |states| - 1, c);
    }
  }

  lemma {:induction false} RevivedAgrees(s: State, a: Id, t: State)
    requires Invariant(s) && IsUnit(s.graph.units, a)
    requires GetsTo(s, t) && a in Satisfied(Verdicts0(s.graph.units, t.facts))
    ensures RecordsAgree(s.graph.units, s.facts, a)
  {
    PathKeepsRecords(s, t);
    ValidIsProjectable(s.graph);
    PassSolves(s.graph.units, t.facts);
    SatisfiedAgree(s.graph.units, s.facts, t.facts, Verdicts0(s.graph.units, t.facts), a);
  }

  lemma {:induction false} RevivedAlong(s: State, a: Id, t: State)
    requires Invariant(s) && GetsTo(s, t) && t.graph == s.graph && a in Satisfied(Verdicts0(s.graph.units, t.facts))
    ensures exists states: seq<State> :: SatisfiedAlong(states, s, a)
  {
    var states: seq<State> :| Path(states, s, t);
    assert SatisfiedAlong(states, s, a);
  }

  lemma {:induction false} DisagreementForbids(states: seq<State>, s: State, a: Id)
    requires a in Activated(s.facts) && !RecordsAgree(s.graph.units, s.facts, a)
    ensures !SatisfiedAlong(states, s, a)
  {
    if Going(states) && states[0] == s {
      DisagreementIsFinal(states, 0, |states| - 1, a);
    }
  }

  /**
    From every state that meets the invariant, and so from every state a run reaches: a run
    under the same revision leads to a state in which the unit is satisfied exactly when the
    records behind it agree. For an activated unit no revision adopted on the way changes that.
   */
  lemma {:induction false} RunRevivesExactly(s: State, a: Id)
    requires Invariant(s) && IsUnit(s.graph.units, a)
    ensures RecordsAgree(s.graph.units, s.facts, a) <==>
              exists t :: GetsTo(s, t) && a in Satisfied(Verdicts0(s.graph.units, t.facts))
    ensures a in Activated(s.facts) ==>
              (RecordsAgree(s.graph.units, s.facts, a) <==> exists states: seq<State> :: SatisfiedAlong(states, s, a))
  {
    if RecordsAgree(s.graph.units, s.facts, a) {
      var t := AgreementRevives(s, a);
      RevivedAlong(s, a, t);
    }
    forall t | GetsTo(s, t) && a in Satisfied(Verdicts0(s.graph.units, t.facts)) ensures RecordsAgree(s.graph.units, s.facts, a) {
      RevivedAgrees(s, a, t);
    }
    forall states: seq<State> | a in Activated(s.facts) && !RecordsAgree(s.graph.units, s.facts, a) ensures !SatisfiedAlong(states, s, a) {
      DisagreementForbids(states, s, a);
    }
  }
}
