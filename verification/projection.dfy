/**
  The projection of a work graph: one dependency-first pass that decides every unit's state,
  which units are satisfied, which can never be, and the runnable frontier.

  The recursive definition of a unit's verdict is stated beside the loops that compute it.
 */
module Projection {
  import opened Ids
  import opened Graphs
  import opened Kahn
  import opened Folds
  import opened WorkGraphs
  import Vocabulary

  datatype ItemState =
    | NotCreated | Queued | Running | Waiting | HandoffPending
    | Completed | Partial | Failed | Stopped
    | UnknownItem(name: Id)

  datatype UnitState = Undecided | Blocked | Ready | Unknown | AwaitingDecision | Invalidated | Child(item: ItemState)

  datatype UnitOutput = UnitOutput(handoff: Id, run: Id, candidateRevision: Id, candidateTree: Id, report: Id)

  datatype WorkUnitInput = WorkUnitInput(unit: Id, output: UnitOutput)

  /** The content digest of a consumed input set, as a free constructor. */
  datatype InputsDigest = InputsDigest(inputs: seq<WorkUnitInput>)

  datatype DecisionWait = DecisionWait(reference: Id, detail: Id)

  datatype UnitFacts = UnitFacts(
    activated: bool,
    activationInputsDigest: Option<InputsDigest>,
    item: ItemState,
    terminal: bool,
    unreadable: bool,
    unreadableReason: Id,
    output: Option<UnitOutput>,
    awaitingDecision: Option<DecisionWait>,
    reviewApproved: bool,
    remediation: Id)

  /** The facts of a unit nothing has been recorded about. */
  const NO_FACTS := UnitFacts(false, None, UnknownItem(0), false, false, 0, None, None, false, 0)

  function FactsOf(facts: map<Id, UnitFacts>, id: Id): UnitFacts {
    if id in facts then facts[id] else NO_FACTS
  }

  datatype Reason =
    | DependencyDead(dependency: Id, state: UnitState)
    | DependencyWaiting(dependency: Id, state: UnitState)
    | Held(hold: DecisionWait)
    | UnreadableChild(reason: Id)
    | UnrecognizedItem(item: ItemState)
    | NoLongerHolds(cause: Reason)
    | InputsReplaced

  datatype UnitProjection = UnitProjection(
    state: UnitState,
    reason: Option<Reason>,
    inputsDigest: Option<InputsDigest>,
    inputs: seq<WorkUnitInput>,
    awaitingDecision: Option<DecisionWait>,
    remediation: Id)

  datatype WorkGraphProjection = WorkGraphProjection(units: map<Id, UnitProjection>, frontier: seq<Id>)

  datatype ProjectionError = CycleAmong(units: seq<Id>) | CompletedWithoutOutput(unit: Id)

  // ---------------------------------------------------------------- what dependencies present

  /** The outputs a unit's dependencies present now, or why one presents none and whether that is final. */
  datatype Consumed = Present(inputs: seq<WorkUnitInput>) | Absent(reason: Reason, settled: bool)

  /** What is known about the units already decided; a map to bool is the set of its true keys. */
  datatype Decided = Decided(satisfied: set<Id>, dead: set<Id>, units: map<Id, UnitProjection>)

  function StateOf(decided: Decided, id: Id): UnitState {
    if id in decided.units then decided.units[id].state else Undecided
  }

  /** Every satisfied unit has the output its dependents read. */
  ghost predicate OutputsPresent(facts: map<Id, UnitFacts>, satisfied: set<Id>) {
    forall d | d in satisfied :: FactsOf(facts, d).output.Some?
  }

  function UnsatisfiedReason(dependency: Id, state: UnitState, dead: bool): Reason {
    if dead then DependencyDead(dependency, state) else DependencyWaiting(dependency, state)
  }

  function FirstUnsatisfied(deps: seq<Id>, decided: Decided): Option<Id> {
    if deps == [] then None
    else if deps[0] !in decided.satisfied then Some(deps[0])
    else FirstUnsatisfied(deps[1..], decided)
  }

  function FirstDead(deps: seq<Id>, decided: Decided): Option<Id> {
    if deps == [] then None
    else if deps[0] !in decided.satisfied && deps[0] in decided.dead then Some(deps[0])
    else FirstDead(deps[1..], decided)
  }

  function InputFrom(dependency: Id, facts: map<Id, UnitFacts>): seq<WorkUnitInput> {
    var output := FactsOf(facts, dependency).output;
    if output.Some? then [WorkUnitInput(dependency, output.value)] else []
  }

  function SatisfiedInputs(deps: seq<Id>, facts: map<Id, UnitFacts>, decided: Decided): seq<WorkUnitInput> {
    if deps == [] then []
    else (if deps[0] in decided.satisfied then InputFrom(deps[0], facts) else [])
         + SatisfiedInputs(deps[1..], facts, decided)
  }

  /**
    The least dead dependency that is not satisfied is the reason, and settles it; without
    one, the least unsatisfied dependency is.
   */
  function ConsumedBy(deps: seq<Id>, facts: map<Id, UnitFacts>, decided: Decided): Consumed {
    var sorted := Sort(deps);
    var dead := FirstDead(sorted, decided);
    var waiting := FirstUnsatisfied(sorted, decided);
    if dead.Some? then Absent(DependencyDead(dead.value, StateOf(decided, dead.value)), true)
    else if waiting.Some? then Absent(DependencyWaiting(waiting.value, StateOf(decided, waiting.value)), false)
    else Present(SatisfiedInputs(sorted, facts, decided))
  }

  /** `canonical`: the inputs by consumed unit id. */
  function Canonical(inputs: seq<WorkUnitInput>): seq<WorkUnitInput> {
    if inputs == [] then [] else InsertInput(inputs[0], Canonical(inputs[1..]))
  }

  function InsertInput(input: WorkUnitInput, inputs: seq<WorkUnitInput>): seq<WorkUnitInput> {
    if inputs == [] then [input]
    else if input.unit <= inputs[0].unit then [input] + inputs
    else [inputs[0]] + InsertInput(input, inputs[1..])
  }

  lemma {:induction false} SatisfiedInputsNames(deps: seq<Id>, facts: map<Id, UnitFacts>, decided: Decided)
    ensures forall input | input in SatisfiedInputs(deps, facts, decided) :: input.unit in deps
  {
    if deps != [] { SatisfiedInputsNames(deps[1..], facts, decided); }
  }

  lemma {:induction false} SatisfiedInputsCanonical(deps: seq<Id>, facts: map<Id, UnitFacts>, decided: Decided)
    requires Ascending(deps)
    ensures Canonical(SatisfiedInputs(deps, facts, decided)) == SatisfiedInputs(deps, facts, decided)
  {
    if deps != [] {
      var rest := SatisfiedInputs(deps[1..], facts, decided);
      SatisfiedInputsCanonical(deps[1..], facts, decided);
      if deps[0] in decided.satisfied && FactsOf(facts, deps[0]).output.Some? {
        var input := WorkUnitInput(deps[0], FactsOf(facts, deps[0]).output.value);
        assert ([input] + rest)[1..] == rest;
        SatisfiedInputsNames(deps[1..], facts, decided);
        if rest != [] { assert rest[0] in rest; }
        assert SatisfiedInputs(deps, facts, decided) == [input] + rest;
      } else {
        assert SatisfiedInputs(deps, facts, decided) == rest;
      }
    }
  }

  /** What the loop over the dependencies updates. */
  datatype Gathered = Gathered(inputs: seq<WorkUnitInput>, waiting: Option<Reason>, settled: Option<Reason>)

  function GatherOne(dependency: Id, facts: map<Id, UnitFacts>, decided: Decided, so: Gathered): Gathered {
    if dependency in decided.satisfied then
      so.(inputs := so.inputs + InputFrom(dependency, facts))
    else
      var state := StateOf(decided, dependency);
      var dead := dependency in decided.dead;
      Gathered(so.inputs,
        if so.waiting.None? then Some(UnsatisfiedReason(dependency, state, dead)) else so.waiting,
        if so.settled.None? && dead then Some(UnsatisfiedReason(dependency, state, true)) else so.settled)
  }

  function Gather(deps: seq<Id>, facts: map<Id, UnitFacts>, decided: Decided, so: Gathered): Gathered
    decreases |deps|
  {
    if deps == [] then so else Gather(deps[1..], facts, decided, GatherOne(deps[0], facts, decided, so))
  }

  function ReasonAbout(first: Option<Id>, decided: Decided, dead: bool): Option<Reason> {
    if first.None? then None else Some(UnsatisfiedReason(first.value, StateOf(decided, first.value), dead))
  }

  lemma {:induction false} GatherExactly(deps: seq<Id>, facts: map<Id, UnitFacts>, decided: Decided, so: Gathered)
    ensures var r := Gather(deps, facts, decided, so);
            && r.inputs == so.inputs + SatisfiedInputs(deps, facts, decided)
            && r.settled == (if so.settled.Some? then so.settled else ReasonAbout(FirstDead(deps, decided), decided, true))
            && r.waiting == (if so.waiting.Some? then so.waiting else
                 var first := FirstUnsatisfied(deps, decided);
                 ReasonAbout(first, decided, first.Some? && first.value in decided.dead))
    decreases |deps|
  {
    if deps != [] {
      GatherExactly(deps[1..], facts, decided, GatherOne(deps[0], facts, decided, so));
    }
  }

  /** `currentInputs`: one pass over the sorted dependencies that remembers the first late and the first dead one. */
  method CurrentInputs(unit: WorkUnit, facts: map<Id, UnitFacts>, decided: Decided) returns (consumed: Consumed)
    requires OutputsPresent(facts, decided.satisfied)
    ensures consumed == ConsumedBy(unit.dependsOn, facts, decided)
  {
    var inputs: seq<WorkUnitInput> := [];
    var waiting, settled: Option<Reason> := None, None;
    var deps := Sort(unit.dependsOn);
    ghost var nothing := Gathered([], None, None);
    assert deps[0..] == deps;
    for i := 0 to |deps|
      invariant Gather(deps[i..], facts, decided, Gathered(inputs, waiting, settled)) == Gather(deps, facts, decided, nothing)
    {
      var dependency := deps[i];
      assert deps[i..][1..] == deps[i + 1..];
      if dependency !in decided.satisfied {
        var state := StateOf(decided, dependency);
        if waiting.None? {
          waiting := Some(UnsatisfiedReason(dependency, state, dependency in decided.dead));
        }
        if settled.None? && dependency in decided.dead {
          settled := Some(UnsatisfiedReason(dependency, state, true));
        }
        continue;
      }
      inputs := inputs + [WorkUnitInput(dependency, FactsOf(facts, dependency).output.value)];
    }
    assert deps[|deps|..] == [];
    GatheredIsConsumed(unit.dependsOn, facts, decided);
    if settled.Some? {
      return Absent(settled.value, true);
    }
    if waiting.Some? {
      return Absent(waiting.value, false);
    }
    return Present(Canonical(inputs));
  }

  function Outcome(so: Gathered): Consumed {
    if so.settled.Some? then Absent(so.settled.value, true)
    else if so.waiting.Some? then Absent(so.waiting.value, false)
    else Present(Canonical(so.inputs))
  }

  lemma {:induction false} GatheredIsConsumed(deps: seq<Id>, facts: map<Id, UnitFacts>, decided: Decided)
    ensures Outcome(Gather(Sort(deps), facts, decided, Gathered([], None, None))) == ConsumedBy(deps, facts, decided)
  {
    var sorted := Sort(deps);
    GatherExactly(sorted, facts, decided, Gathered([], None, None));
    assert [] + SatisfiedInputs(sorted, facts, decided) == SatisfiedInputs(sorted, facts, decided);
    SortSorts(deps);
    SatisfiedInputsCanonical(sorted, facts, decided);
    if FirstDead(sorted, decided).None? { NoneDead(sorted, decided); }
  }

  lemma {:induction false} NoneDead(deps: seq<Id>, decided: Decided)
    requires FirstDead(deps, decided).None?
    ensures FirstUnsatisfied(deps, decided).Some? ==> FirstUnsatisfied(deps, decided).value !in decided.dead
  {
    if deps != [] { NoneDead(deps[1..], decided); }
  }

  // ---------------------------------------------------------------- one unit's verdict

  /** A unit's projection with the three facts the pass keeps beside it. */
  datatype Verdict = Verdict(projection: UnitProjection, satisfied: bool, dead: bool, incoherent: bool)

  predicate KnownItem(item: ItemState) {
    !item.UnknownItem?
  }

  predicate NeverSatisfiable(state: UnitState) {
    state == Child(Failed) || state == Child(Stopped) || state == Invalidated
  }

  /** A readable child of a kind this build understands. */
  predicate Readable(fact: UnitFacts) {
    !fact.unreadable && KnownItem(fact.item)
  }

  /** What activation recorded is what the dependencies present now. */
  predicate StillCurrent(fact: UnitFacts, consumed: Consumed) {
    consumed.Present? && fact.activationInputsDigest == Some(InputsDigest(consumed.inputs))
  }

  /** Which state each situation is reported as: the situations exclude each other and leave none out. */
  predicate StateFits(fact: UnitFacts, consumed: Consumed, state: UnitState) {
    && (state == Blocked <==> !fact.activated && consumed.Absent?)
    && (state == AwaitingDecision <==> !fact.activated && consumed.Present? && fact.awaitingDecision.Some?)
    && (state == Ready <==> !fact.activated && consumed.Present? && fact.awaitingDecision.None?)
    && (state == Unknown <==> fact.activated && !Readable(fact))
    && (state == Invalidated <==> fact.activated && Readable(fact) && !StillCurrent(fact, consumed))
    && (state == Child(fact.item) <==> fact.activated && Readable(fact) && StillCurrent(fact, consumed))
  }

  /** The decision on one unit, given what its dependencies present. */
  function Decide(unit: WorkUnit, fact: UnitFacts, consumed: Consumed): (v: Verdict)
    ensures StateFits(fact, consumed, v.projection.state)
    ensures v.satisfied <==> v.projection.state == Child(Completed) && fact.output.Some? && (!unit.requiresReview || fact.reviewApproved)
    ensures v.dead <==>
              ((consumed.Absent? && consumed.settled) || NeverSatisfiable(v.projection.state) || (fact.activated && fact.terminal && !v.satisfied))
    ensures v.satisfied ==> fact.output.Some? && fact.activated && fact.item == Completed && consumed.Present?
    ensures !(v.satisfied && v.dead)
  {
    var digest := if consumed.Present? then Some(InputsDigest(consumed.inputs)) else None;
    var inputs := if consumed.Present? then consumed.inputs else [];
    var projection :=
      if !fact.activated && consumed.Absent? then
        UnitProjection(Blocked, Some(consumed.reason), None, [], None, 0)
      else if !fact.activated && fact.awaitingDecision.Some? then
        UnitProjection(AwaitingDecision, Some(Held(fact.awaitingDecision.value)), digest, inputs, fact.awaitingDecision, 0)
      else if !fact.activated then
        UnitProjection(Ready, None, digest, inputs, None, 0)
      else if fact.unreadable then
        UnitProjection(Unknown, Some(UnreadableChild(fact.unreadableReason)), None, [], None, 0)
      else if !KnownItem(fact.item) then
        UnitProjection(Unknown, Some(UnrecognizedItem(fact.item)), None, [], None, 0)
      else if consumed.Absent? then
        UnitProjection(Invalidated, Some(NoLongerHolds(consumed.reason)), None, [], None, 0)
      else if fact.activationInputsDigest != digest then
        UnitProjection(Invalidated, Some(InputsReplaced), digest, inputs, None, 0)
      else
        UnitProjection(Child(fact.item), None, digest, inputs, None, fact.remediation);
    var settles := projection.state == Child(Completed);
    var satisfied := settles && fact.output.Some? && (!unit.requiresReview || fact.reviewApproved);
    var dead :=
      || (consumed.Absent? && consumed.settled)
      || NeverSatisfiable(projection.state)
      || (fact.activated && fact.terminal && !satisfied);
    Verdict(projection, satisfied, dead, settles && fact.output.None?)
  }

  // ---------------------------------------------------------------- the whole graph

  type Verdicts = map<Id, Verdict>

  function Satisfied(vs: Verdicts): set<Id> {
    set a | a in vs.Keys && vs[a].satisfied
  }

  function Dead(vs: Verdicts): set<Id> {
    set a | a in vs.Keys && vs[a].dead
  }

  function Projections(vs: Verdicts): map<Id, UnitProjection> {
    map a | a in vs.Keys :: vs[a].projection
  }

  function Known(vs: Verdicts): Decided {
    Decided(Satisfied(vs), Dead(vs), Projections(vs))
  }

  /** What an index of the units answers for an id it does not hold. */
  const NO_UNIT := WorkUnit(0, 0, Vocabulary.UnknownRole(0), Vocabulary.DefaultExecution, 0, [], false)

  function UnitOf(units: seq<WorkUnit>, id: Id): (unit: WorkUnit) {
    if units == [] then NO_UNIT
    else if units[0].id == id then units[0]
    else UnitOf(units[1..], id)
  }

  lemma {:induction false} UnitOfExactly(units: seq<WorkUnit>, i: nat)
    requires DistinctUnits(units) && i < |units|
    ensures UnitOf(units, units[i].id) == units[i]
  {
    if i > 0 { UnitOfExactly(units[1..], i - 1); }
  }

  /** The verdict on one unit given the verdicts on others. */
  function VerdictGiven(units: seq<WorkUnit>, facts: map<Id, UnitFacts>, vs: Verdicts, id: Id): Verdict {
    var unit := UnitOf(units, id);
    Decide(unit, FactsOf(facts, id), ConsumedBy(unit.dependsOn, facts, Known(vs)))
  }

  function Deciding(units: seq<WorkUnit>, facts: map<Id, UnitFacts>): (Verdicts, Id) -> Verdict {
    (vs: Verdicts, id: Id) => VerdictGiven(units, facts, vs, id)
  }

  /** The verdicts of the first `n` units of an order, each decided from those before it. */
  function VerdictsTo(units: seq<WorkUnit>, facts: map<Id, UnitFacts>, order: seq<Id>, n: nat): Verdicts
    requires n <= |order|
  {
    Fold(Deciding(units, facts), order, n)
  }

  function VerdictsOf(units: seq<WorkUnit>, facts: map<Id, UnitFacts>, order: seq<Id>): Verdicts {
    VerdictsTo(units, facts, order, |order|)
  }

  /** A projectable graph: what validation leaves to project. */
  ghost predicate Projectable(units: seq<WorkUnit>) {
    DistinctUnits(units) && Closed(UnitGraph(units)) && Acyclic(UnitGraph(units))
  }

  /**
    The recursive definition: every unit's verdict is the decision on what its dependencies'
    verdicts present. It does not mention any order.
   */
  ghost predicate Solves(units: seq<WorkUnit>, facts: map<Id, UnitFacts>, vs: Verdicts) {
    && vs.Keys == UnitGraph(units).Keys
    && forall a | a in vs :: vs[a] == VerdictGiven(units, facts, vs, a)
  }

  function ReadyUnits(vs: Verdicts): set<Id> {
    set a | a in vs.Keys && vs[a].projection.state == Ready
  }

  /** The first unit of the order whose facts contradict themselves. */
  function FirstIncoherent(vs: Verdicts, order: seq<Id>): Option<Id> {
    if order == [] then None
    else if order[0] in vs && vs[order[0]].incoherent then Some(order[0])
    else FirstIncoherent(vs, order[1..])
  }

  lemma {:induction false} IncoherentAt(vs: Verdicts, order: seq<Id>, k: nat)
    requires k <= |order|
    requires forall j | 0 <= j < k :: order[j] in vs ==> !vs[order[j]].incoherent
    ensures k == |order| ==> FirstIncoherent(vs, order).None?
    ensures k < |order| && order[k] in vs && vs[order[k]].incoherent ==> FirstIncoherent(vs, order) == Some(order[k])
    decreases |order|
  {
    if k > 0 {
      forall j | 0 <= j < k - 1 ensures order[1..][j] in vs ==> !vs[order[1..][j]].incoherent {
        assert order[1..][j] == order[j + 1];
      }
      IncoherentAt(vs, order[1..], k - 1);
    }
  }

  /** The outcome of the pass, in terms of the order and the verdicts alone. */
  function Projected(units: seq<WorkUnit>, facts: map<Id, UnitFacts>): Result<WorkGraphProjection, ProjectionError> {
    var g := UnitGraph(units);
    if |Order(g)| != |units| then Failure(CycleAmong(Listing(g.Keys - Elements(Order(g)))))
    else
      var vs := VerdictsOf(units, facts, Order(g));
      var bad := FirstIncoherent(vs, Order(g));
      if bad.Some? then Failure(CompletedWithoutOutput(bad.value))
      else Success(WorkGraphProjection(Projections(vs), Listing(ReadyUnits(vs))))
  }

  /** Only a unit with an output is ever satisfied. */
  lemma {:induction false} SatisfiedHaveOutputs(units: seq<WorkUnit>, facts: map<Id, UnitFacts>, order: seq<Id>, n: nat)
    requires n <= |order|
    ensures OutputsPresent(facts, Satisfied(VerdictsTo(units, facts, order, n)))
  {
    if n > 0 { SatisfiedHaveOutputs(units, facts, order, n - 1); }
  }

  /** What the loop over the units updates, and one turn of it. */
  datatype Pass = Pass(decided: Decided, frontier: seq<Id>)

  function PassOne(pass: Pass, id: Id, v: Verdict): Pass {
    Pass(Decided(
        if v.satisfied then pass.decided.satisfied + {id} else pass.decided.satisfied,
        if v.dead then pass.decided.dead + {id} else pass.decided.dead,
        pass.decided.units[id := v.projection]),
      if v.projection.state == Ready then pass.frontier + [id] else pass.frontier)
  }

  ghost predicate Coherent(vs: Verdicts) {
    forall a | a in vs :: !vs[a].incoherent
  }

  /** What the loop maintains, in terms of the verdicts reached so far. */
  ghost predicate Passing(vs: Verdicts, pass: Pass) {
    && pass.decided == Known(vs)
    && Distinct(pass.frontier) && Elements(pass.frontier) == ReadyUnits(vs)
    && Coherent(vs)
  }

  lemma PassStep(vs: Verdicts, pass: Pass, id: Id, v: Verdict)
    requires Passing(vs, pass) && id !in vs && !v.incoherent
    ensures Passing(vs[id := v], PassOne(pass, id, v))
  {
    assert id !in ReadyUnits(vs);
    assert id !in Elements(pass.frontier);
    assert Elements(pass.frontier + [id]) == Elements(pass.frontier) + {id};
  }

  lemma {:induction false} PassFinds(units: seq<WorkUnit>, facts: map<Id, UnitFacts>, order: seq<Id>, i: nat)
    requires Distinct(order) && i <= |order| && Coherent(VerdictsTo(units, facts, order, i))
    ensures i == |order| ==> FirstIncoherent(VerdictsOf(units, facts, order), order).None?
    ensures i < |order| && VerdictGiven(units, facts, VerdictsTo(units, facts, order, i), order[i]).incoherent ==>
              FirstIncoherent(VerdictsOf(units, facts, order), order) == Some(order[i])
  {
    var step := Deciding(units, facts);
    var vs := Fold(step, order, |order|);
    forall j | 0 <= j < i ensures order[j] in vs ==> !vs[order[j]].incoherent {
      FoldKeeps(step, order, j, i);
      FoldKeeps(step, order, j, |order|);
    }
    IncoherentAt(vs, order, i);
    if i < |order| { FoldKeeps(step, order, i, |order|); }
  }

  ghost predicate Indexed(units: seq<WorkUnit>, byID: map<Id, WorkUnit>) {
    forall a | IsUnit(units, a) :: a in byID && byID[a] == UnitOf(units, a)
  }

  ghost predicate OrdersUnits(units: seq<WorkUnit>, order: seq<Id>) {
    DistinctUnits(units) && Distinct(order) && forall i | 0 <= i < |order| :: IsUnit(units, order[i])
  }

  lemma {:induction false} OrderOrdersUnits(units: seq<WorkUnit>)
    requires DistinctUnits(units)
    ensures OrdersUnits(units, Order(UnitGraph(units)))
  {
    OrderFromElements(UnitGraph(units), {});
    UnitGraphEntries(units);
  }

  lemma {:induction false} PassTurn(units: seq<WorkUnit>, facts: map<Id, UnitFacts>, order: seq<Id>, byID: map<Id, WorkUnit>, i: nat, pass: Pass)
    requires OrdersUnits(units, order) && Indexed(units, byID) && i < |order|
    requires Passing(VerdictsTo(units, facts, order, i), pass)
    ensures order[i] in byID && OutputsPresent(facts, pass.decided.satisfied)
    ensures var unit := byID[order[i]];
            var v := Decide(unit, FactsOf(facts, order[i]), ConsumedBy(unit.dependsOn, facts, pass.decided));
            if v.incoherent then FirstIncoherent(VerdictsOf(units, facts, order), order) == Some(order[i])
            else Passing(VerdictsTo(units, facts, order, i + 1), PassOne(pass, order[i], v))
  {
    var before := VerdictsTo(units, facts, order, i);
    SatisfiedHaveOutputs(units, facts, order, i);
    FoldNew(Deciding(units, facts), order, i);
    var v := VerdictGiven(units, facts, before, order[i]);
    if v.incoherent {
      PassFinds(units, facts, order, i);
    } else {
      PassStep(before, pass, order[i], v);
    }
  }

  lemma {:induction false} PassOver(units: seq<WorkUnit>, facts: map<Id, UnitFacts>, order: seq<Id>, pass: Pass)
    requires OrdersUnits(units, order) && Passing(VerdictsOf(units, facts, order), pass)
    ensures FirstIncoherent(VerdictsOf(units, facts, order), order).None?
    ensures WorkGraphProjection(pass.decided.units, Sort(pass.frontier))
         == WorkGraphProjection(Projections(VerdictsOf(units, facts, order)), Listing(ReadyUnits(VerdictsOf(units, facts, order))))
  {
    PassFinds(units, facts, order, |order|);
    SortLists(pass.frontier, ReadyUnits(VerdictsOf(units, facts, order)));
  }

  /**
    `ProjectWorkGraph`. Reading the output of a satisfied dependency never finds it missing:
    that is the precondition every step establishes for the next.
   */
  method ProjectWorkGraph(units: seq<WorkUnit>, facts: map<Id, UnitFacts>)
    returns (r: Result<WorkGraphProjection, ProjectionError>)
    requires DistinctUnits(units)
    ensures r == Projected(units, facts)
  {
    var sorted := TopologicalOrder(units);
    if sorted.Failure? {
      return Failure(CycleAmong(sorted.error));
    }
    var order := sorted.value;
    OrderOrdersUnits(units);
    var byID := IndexById(units);
    var pass := Pass(Decided({}, {}, map[]), []);
    for i := 0 to |order|
      invariant Passing(VerdictsTo(units, facts, order, i), pass)
    {
      var id := order[i];
      PassTurn(units, facts, order, byID, i, pass);
      var consumed := CurrentInputs(byID[id], facts, pass.decided);
      var v := Decide(byID[id], FactsOf(facts, id), consumed);
      if v.incoherent {
        return Failure(CompletedWithoutOutput(id));
      }
      pass := PassOne(pass, id, v);
    }
    PassOver(units, facts, order, pass);
    return Success(WorkGraphProjection(pass.decided.units, Sort(pass.frontier)));
  }

  method IndexById(units: seq<WorkUnit>) returns (byID: map<Id, WorkUnit>)
    requires DistinctUnits(units)
    ensures Indexed(units, byID)
  {
    byID := IndexUnits(units);
    forall a | IsUnit(units, a) ensures a in byID && byID[a] == UnitOf(units, a) {
      var i :| 0 <= i < |units| && units[i].id == a;
      UnitOfExactly(units, i);
    }
  }
}
