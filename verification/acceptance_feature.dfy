/** Stamping the operator's declared acceptance feature on the one final deterministic integration. */
module AcceptanceFeature {
  import opened Ids
  import opened Graphs
  import opened Kahn
  import opened Vocabulary
  import opened Plans
  import opened Reachability
  import opened StageGraphs

  datatype BindError = InvalidName | SeveralFinal(first: Id, second: Id) | NoneFinal

  predicate Integrates(stage: PlanStage) {
    stage.kind.AgentStage? && Composes(stage)
  }

  /** A deterministic integration no other one consumes. */
  ghost predicate Final(stages: seq<PlanStage>, g: Graph, i: int)
    requires 0 <= i < |stages|
  {
    Integrates(stages[i]) && !FeedsIntegration(stages, g, stages[i].id)
  }

  // ---------------------------------------------------------------- what binding promises

  /** Some stage of the plan integrates deterministically. */
  ghost predicate HasIntegration(stages: seq<PlanStage>) {
    exists i :: 0 <= i < |stages| && Integrates(stages[i])
  }

  /** Integrations are worker stages: what stage validation leaves. */
  ghost predicate IntegrationsAreWorkers(stages: seq<PlanStage>) {
    forall i | 0 <= i < |stages| && Composes(stages[i]) :: stages[i].kind.AgentStage?
  }

  /** Of the integrations the last in dependency order feeds no other, so wherever there is one, one is final. */
  lemma {:induction false} SomeIsFinal(stages: seq<PlanStage>)
    requires DistinctStages(stages) && Closed(StageGraph(stages)) && Acyclic(StageGraph(stages))
    requires IntegrationsAreWorkers(stages) && HasIntegration(stages)
    ensures exists i :: 0 <= i < |stages| && Final(stages, StageGraph(stages), i)
  {
    var g := StageGraph(stages);
    StageGraphEntries(stages);
    CompleteIffAcyclic(g);
    OrderLength(g);
    var order := Order(g);
    var i :| 0 <= i < |stages| && Integrates(stages[i]);
    assert stages[i].id in Settled(g);
    var k :| 0 <= k < |order| && order[k] == stages[i].id;
    LastIsFinal(stages, i, k);
  }

  lemma {:induction false} LastIsFinal(stages: seq<PlanStage>, i: nat, k: nat)
    requires DistinctStages(stages) && Closed(StageGraph(stages)) && Acyclic(StageGraph(stages))
    requires IntegrationsAreWorkers(stages) && i < |stages| && Integrates(stages[i])
    requires k < |Order(StageGraph(stages))| && Order(StageGraph(stages))[k] == stages[i].id
    ensures exists j :: 0 <= j < |stages| && Final(stages, StageGraph(stages), j)
    decreases |stages| - k
  {
    var g := StageGraph(stages);
    var order := Order(g);
    StageGraphEntries(stages);
    CompleteIffAcyclic(g);
    OrderLength(g);
    if FeedsIntegration(stages, g, stages[i].id) {
      var c :| 0 <= c < |stages| && stages[c].id != stages[i].id && Composes(stages[c]) && Reaches(g, stages[c].id, stages[i].id);
      assert stages[c].id in Settled(g);
      var m :| 0 <= m < |order| && order[m] == stages[c].id;
      ReachesEarlier(g, m, stages[i].id);
      var e :| 0 <= e < m && order[..m][e] == stages[i].id;
      assert order[e] == order[k] && e == k;
      LastIsFinal(stages, c, m);
    } else {
      assert Final(stages, g, i);
    }
  }

  /** Reporting that the plan has no final integration means it has no integration at all. */
  lemma {:induction false} NoneFinalMeansNone(stages: seq<PlanStage>)
    requires DistinctStages(stages) && Closed(StageGraph(stages)) && Acyclic(StageGraph(stages)) && IntegrationsAreWorkers(stages)
    ensures (forall i | 0 <= i < |stages| :: !Final(stages, StageGraph(stages), i)) <==> !HasIntegration(stages)
  {
    if HasIntegration(stages) { SomeIsFinal(stages); }
  }

  lemma {:induction false} CarriersAfterStamp(stages: seq<PlanStage>, k: nat, feature: string)
    requires k < |stages| && forall i | 0 <= i < |stages| :: stages[i].acceptanceFeature.None?
    ensures Carriers(Stamped(stages, k, feature)) == 1
  {
    var bound := Stamped(stages, k, feature);
    var n := |stages| - 1;
    if k == n {
      assert bound[..n] == stages[..n];
      NoCarriers(stages[..n]);
    } else {
      assert bound[..n] == Stamped(stages[..n], k, feature);
      CarriersAfterStamp(stages[..n], k, feature);
    }
  }

  lemma {:induction false} NoCarriers(stages: seq<PlanStage>)
    requires forall i | 0 <= i < |stages| :: stages[i].acceptanceFeature.None?
    ensures Carriers(stages) == 0
  {
    if stages != [] { NoCarriers(stages[..|stages| - 1]); }
  }

  /** The stamped plan satisfies the feature law, with exactly one carrier and an unchanged graph. */
  lemma {:induction false} BoundPlanIsValid(stages: seq<PlanStage>, k: nat, feature: string)
    requires DistinctStages(stages) && k < |stages| && Final(stages, StageGraph(stages), k)
    requires forall i | 0 <= i < |stages| :: stages[i].acceptanceFeature.None?
    requires ValidAcceptanceFeature(feature)
    ensures var bound := Stamped(stages, k, feature);
            StageGraph(bound) == StageGraph(stages) && ValidFeature(bound, StageGraph(bound)) && Carriers(bound) == 1
  {
    var bound := Stamped(stages, k, feature);
    var g := StageGraph(stages);
    assert StageNodes(bound) == StageNodes(stages);
    CarriersAfterStamp(stages, k, feature);
    assert forall c | 0 <= c < |bound| :: bound[c].id == stages[c].id && Composes(bound[c]) == Composes(stages[c]);
    assert FeedsIntegration(bound, g, stages[k].id) ==> FeedsIntegration(stages, g, stages[k].id);
    assert forall i | 0 <= i < |bound| :: ValidCarrier(bound, g, bound[i]);
  }

  /** A valid stage graph that carries no feature yet. */
  ghost predicate Unbound(stages: seq<PlanStage>) {
    && DistinctStages(stages) && Closed(StageGraph(stages)) && Acyclic(StageGraph(stages))
    && IntegrationsAreWorkers(stages)
    && forall i | 0 <= i < |stages| :: stages[i].acceptanceFeature.None?
  }

  lemma {:induction false} ValidGraphUnbound(stages: seq<PlanStage>)
    requires ValidStageGraph(stages) && forall i | 0 <= i < |stages| :: stages[i].acceptanceFeature.None?
    ensures Unbound(stages)
  {
    var byID :| IndexesStages(stages, byID) && forall i | 0 <= i < |stages| :: ValidStage(stages[i], byID);
    ValidStagesClosed(stages, byID);
  }

  /** Stage `k` is the one final integration. */
  ghost predicate OnlyFinal(stages: seq<PlanStage>, k: int)
    requires 0 <= k < |stages|
  {
    Final(stages, StageGraph(stages), k) && forall i | 0 <= i < |stages| && i != k :: !Final(stages, StageGraph(stages), i)
  }

  function Stamped(stages: seq<PlanStage>, k: nat, feature: string): seq<PlanStage>
    requires k < |stages|
  {
    stages[k := stages[k].(acceptanceFeature := Some(feature))]
  }

  /** The stages by id; a repeated id keeps its last stage. */
  method IndexLast(stages: seq<PlanStage>) returns (byID: map<Id, PlanStage>)
    ensures IndexGraph(byID) == StageGraph(stages)
  {
    byID := map[];
    for i := 0 to |stages|
      invariant IndexGraph(byID) == StageGraph(stages[..i])
    {
      assert StageNodes(stages[..i + 1])[..i] == StageNodes(stages[..i]);
      assert StageGraph(stages[..i + 1]) == StageGraph(stages[..i])[stages[i].id := stages[i].dependsOn];
      byID := byID[stages[i].id := stages[i]];
    }
    assert stages[..|stages|] == stages;
  }

  /** `bindAcceptanceFeature`. */
  method BindAcceptanceFeature(stages: seq<PlanStage>, feature: Option<string>) returns (r: Result<seq<PlanStage>, BindError>)
    ensures feature.None? ==> r == Success(stages)
    ensures r == Failure(InvalidName) <==> feature.Some? && !ValidAcceptanceFeature(feature.value)
    ensures feature.Some? && r.Success? ==>
              exists k :: 0 <= k < |stages| && OnlyFinal(stages, k) && r.value == Stamped(stages, k, feature.value)
    ensures r.Failure? && r.error.SeveralFinal? ==>
              exists i, k :: 0 <= i < k < |stages| && Final(stages, StageGraph(stages), i) && Final(stages, StageGraph(stages), k)
                && stages[i].id == r.error.first && stages[k].id == r.error.second
    ensures r == Failure(NoneFinal) ==> forall i | 0 <= i < |stages| :: !Final(stages, StageGraph(stages), i)
    // On a valid stage graph carrying no feature:
    ensures Unbound(stages) && feature.Some? && ValidAcceptanceFeature(feature.value) ==>
              && (r.Success? <==> exists k :: 0 <= k < |stages| && OnlyFinal(stages, k))
              && (r == Failure(NoneFinal) <==> !HasIntegration(stages))
              && (r.Success? ==> StageGraph(r.value) == StageGraph(stages) && ValidFeature(r.value, StageGraph(r.value)) && Carriers(r.value) == 1)
  {
    if feature.None? { return Success(stages); }
    if !ValidAcceptanceFeature(feature.value) { return Failure(InvalidName); }
    ghost var g := StageGraph(stages);
    var byID := IndexLast(stages);
    var final := -1;
    for i := 0 to |stages|
      invariant -1 <= final < i
      invariant final >= 0 ==> Final(stages, g, final)
      invariant forall k | 0 <= k < i && k != final :: !Final(stages, g, k)
    {
      if !Integrates(stages[i]) { continue; }
      var consumed := DownstreamIntegration(stages[i].id, stages, byID);
      if consumed { continue; }
      if final >= 0 {
        assert Final(stages, g, i);
        if Unbound(stages) { NoneFinalMeansNone(stages); }
        return Failure(SeveralFinal(stages[final].id, stages[i].id));
      }
      final := i;
    }
    if Unbound(stages) { NoneFinalMeansNone(stages); }
    if final < 0 { return Failure(NoneFinal); }
    assert OnlyFinal(stages, final);
    if Unbound(stages) { BoundPlanIsValid(stages, final, feature.value); }
    return Success(Stamped(stages, final, feature.value));
  }

  // ---------------------------------------------------------------- proposals that carry a feature back

  predicate Echoes(stage: PlanStage, declared: Option<string>) {
    stage.acceptanceFeature.Some? ==> stage.acceptanceFeature == declared
  }

  function Featureless(stages: seq<PlanStage>): seq<PlanStage> {
    seq(|stages|, i requires 0 <= i < |stages| => stages[i].(acceptanceFeature := None))
  }

  /** `withoutEchoedAcceptanceFeature`: a copy without the declaration, refused when a stage states any other. */
  method WithoutEchoedAcceptanceFeature(proposed: seq<PlanStage>, declared: Option<string>) returns (r: Option<seq<PlanStage>>)
    ensures r.Some? <==> forall i | 0 <= i < |proposed| :: Echoes(proposed[i], declared)
    ensures r.Some? ==> r.value == Featureless(proposed)
  {
    var out := new PlanStage[|proposed|](i requires 0 <= i < |proposed| => proposed[i]);
    for i := 0 to out.Length
      invariant forall k | 0 <= k < i :: Echoes(proposed[k], declared) && out[k] == proposed[k].(acceptanceFeature := None)
      invariant forall k | i <= k < out.Length :: out[k] == proposed[k]
    {
      var stage := out[i];
      if stage.acceptanceFeature.None? {
      } else if stage.acceptanceFeature == declared {
        out[i] := stage.(acceptanceFeature := None);
      } else {
        return None;
      }
    }
    return Some(out[..]);
  }

  /** A bound plan carried back as a proposal is accepted, loses the stamp, and is the plan binding started from; so binding it again gives the same plan. */
  lemma {:induction false} EchoUndoesBinding(stages: seq<PlanStage>, k: nat, feature: string)
    requires k < |stages| && forall i | 0 <= i < |stages| :: stages[i].acceptanceFeature.None?
    ensures forall i | 0 <= i < |Stamped(stages, k, feature)| :: Echoes(Stamped(stages, k, feature)[i], Some(feature))
    ensures Featureless(Stamped(stages, k, feature)) == stages
  {
    forall i | 0 <= i < |stages| ensures Featureless(Stamped(stages, k, feature))[i] == stages[i] {
      assert stages[i].acceptanceFeature.None?;
    }
  }
}
