/** Policy's whole list of role obligations: what the last of them leaves met, and what the finished plan does. */
module ObligationLaws {
  import opened Ids
  import opened Graphs
  import opened Kahn
  import opened Vocabulary
  import opened Plans
  import opened PlanCompiler
  import opened PlanCompilerLaws
  import opened Policies
  import opened Obligations

  // ---------------------------------------------------------------- one obligation under another

  /** Applying the obligation adds a stage, and its role produces material change. */
  predicate AddsProducer(stages: seq<PlanStage>, q: RoleRequirement) {
    ProducesMaterialChange(q.role) && FirstFrom(stages, q.role, 0) == |stages|
  }

  lemma {:induction false} NoneFrom(stages: seq<PlanStage>, role: Role, i: nat)
    requires i <= |stages| && forall j | i <= j < |stages| :: !Performs(stages[j], role)
    ensures FirstFrom(stages, role, i) == |stages|
    decreases |stages| - i
  {
    if i < |stages| { NoneFrom(stages, role, i + 1); }
  }

  /** The stages there are afterwards. */
  lemma {:induction false} StagesAfter(stages: seq<PlanStage>, q: RoleRequirement, added: Id)
    requires DistinctStages(stages) && !IsStage(stages, added) && Applied(stages, q, added).Success?
    ensures DistinctStages(Applied(stages, q, added).value)
    ensures forall x :: IsStage(Applied(stages, q, added).value, x) ==> IsStage(stages, x) || x == added
  {
    AppliedShape(stages, q, added);
    var base := WithRole(stages, q.role, added);
    var after := Applied(stages, q, added).value;
    forall i | 0 <= i < |after| ensures after[i].id == base[i].id {}
  }

  /** An obligation touches no stage of another role, and comes before none. */
  lemma {:induction false} OtherRoleKept(stages: seq<PlanStage>, q: RoleRequirement, added: Id, role: Role)
    requires q.role != role && Applied(stages, q, added).Success?
    ensures var k, after := FirstFrom(stages, role, 0), Applied(stages, q, added).value;
            if k < |stages| then FirstFrom(after, role, 0) == k && k < |after| && after[k] == stages[k]
            else FirstFrom(after, role, 0) == |after|
  {
    AppliedShape(stages, q, added);
    var after := Applied(stages, q, added).value;
    var k := FirstFrom(stages, role, 0);
    if k < |stages| {
      FirstUnique(after, role, 0, k);
    } else {
      NoneFrom(after, role, 0);
    }
  }

  lemma {:induction false} ProducersAfter(stages: seq<PlanStage>, q: RoleRequirement, added: Id, p: Id)
    requires Applied(stages, q, added).Success?
    ensures p in MaterialProducers(Applied(stages, q, added).value) <==>
              p in MaterialProducers(stages) || (p == added && AddsProducer(stages, q))
  {
    AppliedShape(stages, q, added);
    var base := WithRole(stages, q.role, added);
    var after := Applied(stages, q, added).value;
    SameStageGraph(base, FirstFrom(base, q.role, 0), after[FirstFrom(base, q.role, 0)]);
    MaterialProducersExactly(stages, p);
    MaterialProducersExactly(base, p);
    if AddsProducer(stages, q) { assert base[|stages|].id == added && IsProducer(base[|stages|]); }
    if i :| 0 <= i < |stages| && stages[i].id == p && IsProducer(stages[i]) { assert base[i] == stages[i]; }
  }

  lemma {:induction false} SubstituteKept(stages: seq<PlanStage>, after: seq<PlanStage>, role: Role, i: nat)
    requires i <= |stages| <= |after|
    requires forall j | 0 <= j < |stages| :: Substitutes(after[j], role) == Substitutes(stages[j], role)
    requires forall j | 0 <= j < |stages| && Substitutes(stages[j], role) :: after[j] == stages[j]
    requires forall j | |stages| <= j < |after| :: !Substitutes(after[j], role)
    ensures var s, s' := FirstSubstitute(stages, role, i), FirstSubstitute(after, role, i);
            if s < |stages| then s' == s && after[s] == stages[s] else s' == |after|
    decreases |after| - i
  {
    if i < |stages| {
      if !Substitutes(stages[i], role) { SubstituteKept(stages, after, role, i + 1); }
    } else {
      NoSubstituteFrom(after, role, i);
    }
  }

  lemma {:induction false} NoSubstituteFrom(stages: seq<PlanStage>, role: Role, i: nat)
    requires i <= |stages| && forall j | i <= j < |stages| :: !Substitutes(stages[j], role)
    ensures FirstSubstitute(stages, role, i) == |stages|
    decreases |stages| - i
  {
    if i < |stages| { NoSubstituteFrom(stages, role, i + 1); }
  }

  /** Every obligation the later one could unmet names the producer it adds. */
  predicate NamesWhatIsAdded(stages: seq<PlanStage>, r: RoleRequirement, q: RoleRequirement, added: Id)
    requires Met(stages, r)
  {
    r.independence.Some? && FirstFrom(stages, r.role, 0) < |stages| && AddsProducer(stages, q) ==>
      added in stages[FirstFrom(stages, r.role, 0)].independence.value.differentFrom
  }

  /**
    Under an obligation for another role, what was met stays met exactly when that obligation
    adds no producer, or the stage bound before names the one it adds. What was unmet stays
    unmet.
   */
  lemma {:induction false} MetUnderAnother(stages: seq<PlanStage>, r: RoleRequirement, q: RoleRequirement, added: Id)
    requires DistinctStages(stages) && !IsStage(stages, added) && Applied(stages, q, added).Success? && q.role != r.role
    ensures Met(Applied(stages, q, added).value, r) <==> Met(stages, r) && NamesWhatIsAdded(stages, r, q, added)
  {
    var after := Applied(stages, q, added).value;
    var k := FirstFrom(stages, r.role, 0);
    OtherRoleKept(stages, q, added, r.role);
    if k == |stages| {
      AppliedShape(stages, q, added);
      SubstituteKept(stages, after, r.role, 0);
    } else {
      forall p ensures p in MaterialProducers(after) <==> p in MaterialProducers(stages) || (p == added && AddsProducer(stages, q)) {
        ProducersAfter(stages, q, added, p);
      }
      MeetsWithOneMore(MaterialProducers(stages), MaterialProducers(after), stages[k], r, added, AddsProducer(stages, q));
    }
  }

  /** With one producer more, what a worker meets it still meets exactly when it names that one. */
  lemma {:induction false} MeetsWithOneMore(producers: seq<Id>, more: seq<Id>, stage: PlanStage, r: RoleRequirement, added: Id, adds: bool)
    requires stage.id != added && forall p :: p in more <==> p in producers || (p == added && adds)
    ensures StageMeets(more, stage, r) <==>
              StageMeets(producers, stage, r) && (r.independence.Some? && adds ==> added in stage.independence.value.differentFrom)
  {
    if adds { assert added in more; }
  }

  /** Under another obligation for the same worker, exactly the substitution permission can be lost to it. */
  lemma {:induction false} MetUnderSame(stages: seq<PlanStage>, r: RoleRequirement, q: RoleRequirement, added: Id)
    requires Applied(stages, q, added).Success? && q.role == r.role && RoleKnown(r)
    requires FirstFrom(stages, r.role, 0) < |stages| && Met(stages, r)
    ensures Met(Applied(stages, q, added).value, r) <==>
              (r.independence.Some? && q.independence.Some? && q.independence.value.humanSubstitutionPermitted ==>
                 r.independence.value.humanSubstitutionPermitted)
  {
    var k := FirstFrom(stages, r.role, 0);
    AppliedShape(stages, q, added);
    var after := Applied(stages, q, added).value;
    SameStageGraph(stages, k, after[k]);
    StrengthenedKept(stages, stages[k], q);
  }

  // ---------------------------------------------------------------- the whole list

  /** A requirement, and the unused id a stage added for it would get. */
  datatype Obligation = Obligation(requirement: RoleRequirement, added: Id)

  /** The role part of `applyPolicyObligations`. */
  ghost function AppliedAll(stages: seq<PlanStage>, os: seq<Obligation>): Result<seq<PlanStage>, Refusal>
    decreases |os|
  {
    if os == [] then Success(stages)
    else
      match Applied(stages, os[0].requirement, os[0].added)
      case Failure(why) => Failure(why)
      case Success(next) => AppliedAll(next, os[1..])
  }

  method ApplyRoleObligations(stages: seq<PlanStage>, os: seq<Obligation>) returns (applied: Result<seq<PlanStage>, Refusal>)
    ensures applied == AppliedAll(stages, os)
  {
    var current := stages;
    assert os[0..] == os;
    for i := 0 to |os|
      invariant AppliedAll(current, os[i..]) == AppliedAll(stages, os)
    {
      assert os[i..][1..] == os[i + 1..];
      var next := ApplyRoleObligation(current, os[i].requirement, os[i].added);
      if next.Failure? { return next; }
      current := next.value;
    }
    return Success(current);
  }

  /** One requirement a role, as policy compiles them, and an id of its own for every stage it might add. */
  ghost predicate Suitable(stages: seq<PlanStage>, os: seq<Obligation>) {
    && DistinctStages(stages)
    && (forall i | 0 <= i < |os| :: !IsStage(stages, os[i].added) && RoleKnown(os[i].requirement))
    && forall i, j | 0 <= i < j < |os| :: os[i].added != os[j].added && os[i].requirement.role != os[j].requirement.role
  }

  lemma {:induction false} SuitableNext(stages: seq<PlanStage>, os: seq<Obligation>)
    requires Suitable(stages, os) && os != [] && Applied(stages, os[0].requirement, os[0].added).Success?
    ensures Suitable(Applied(stages, os[0].requirement, os[0].added).value, os[1..])
  {
    StagesAfter(stages, os[0].requirement, os[0].added);
    forall i | 0 <= i < |os| - 1 ensures os[1..][i] == os[i + 1] && os[i + 1].added != os[0].added {}
  }

  lemma {:induction false} AppliedInTurn(stages: seq<PlanStage>, os: seq<Obligation>, i: nat)
    requires i <= |os| && AppliedAll(stages, os).Success?
    ensures AppliedAll(stages, os[..i]).Success?
    ensures AppliedAll(AppliedAll(stages, os[..i]).value, os[i..]) == AppliedAll(stages, os)
    ensures Suitable(stages, os) ==> Suitable(AppliedAll(stages, os[..i]).value, os[i..])
    decreases i
  {
    if i == 0 {
      assert os[..0] == [] && os[0..] == os;
    } else {
      var next := Applied(stages, os[0].requirement, os[0].added).value;
      assert os[..i][0] == os[0] && os[..i][1..] == os[1..][..i - 1] && os[1..][i - 1..] == os[i..];
      assert AppliedAll(stages, os) == AppliedAll(next, os[1..]);
      assert AppliedAll(stages, os[..i]) == AppliedAll(next, os[1..][..i - 1]);
      AppliedInTurn(next, os[1..], i - 1);
      if Suitable(stages, os) { SuitableNext(stages, os); }
    }
  }

  /** Obligations for other roles leave a role's worker where and as it was. */
  lemma {:induction false} OthersKeep(stages: seq<PlanStage>, os: seq<Obligation>, role: Role)
    requires AppliedAll(stages, os).Success? && forall j | 0 <= j < |os| :: os[j].requirement.role != role
    ensures var k, after := FirstFrom(stages, role, 0), AppliedAll(stages, os).value;
            if k < |stages| then FirstFrom(after, role, 0) == k && k < |after| && after[k] == stages[k]
            else FirstFrom(after, role, 0) == |after|
    decreases |os|
  {
    if os != [] {
      OtherRoleKept(stages, os[0].requirement, os[0].added, role);
      assert forall j | 0 <= j < |os| - 1 :: os[1..][j] == os[j + 1];
      OthersKeep(Applied(stages, os[0].requirement, os[0].added).value, os[1..], role);
    }
  }

  ghost predicate NamesAllAdded(stages: seq<PlanStage>, r: RoleRequirement, os: seq<Obligation>)
    requires Met(stages, r)
  {
    forall j | 0 <= j < |os| :: NamesWhatIsAdded(stages, r, os[j].requirement, os[j].added)
  }

  /** Under any list of obligations for other roles, what was met stays met exactly when every producer they add is named. */
  lemma {:induction false} StaysMet(stages: seq<PlanStage>, os: seq<Obligation>, r: RoleRequirement)
    requires Suitable(stages, os) && AppliedAll(stages, os).Success? && forall j | 0 <= j < |os| :: os[j].requirement.role != r.role
    ensures Met(AppliedAll(stages, os).value, r) <==> Met(stages, r) && NamesAllAdded(stages, r, os)
    decreases |os|
  {
    if os != [] {
      var q, added := os[0].requirement, os[0].added;
      var next := Applied(stages, q, added).value;
      MetUnderAnother(stages, r, q, added);
      SuitableNext(stages, os);
      OtherRoleKept(stages, q, added, r.role);
      assert forall j | 0 <= j < |os| - 1 :: os[1..][j] == os[j + 1];
      StaysMet(next, os[1..], r);
      forall j | 1 <= j < |os| ensures AddsProducer(next, os[j].requirement) <==> AddsProducer(stages, os[j].requirement) {
        OtherRoleKept(stages, q, added, os[j].requirement.role);
      }
      if Met(stages, r) && NamesWhatIsAdded(stages, r, q, added) {
        assert NamesAllAdded(stages, r, os) <==> NamesAllAdded(next, r, os[1..]) by {
          if NamesAllAdded(next, r, os[1..]) {
            forall j | 0 <= j < |os| ensures NamesWhatIsAdded(stages, r, os[j].requirement, os[j].added) {
              if j > 0 { assert NamesWhatIsAdded(next, r, os[1..][j - 1].requirement, os[1..][j - 1].added); }
            }
          }
          if NamesAllAdded(stages, r, os) {
            forall j | 0 <= j < |os| - 1 ensures NamesWhatIsAdded(next, r, os[1..][j].requirement, os[1..][j].added) {
              assert NamesWhatIsAdded(stages, r, os[j + 1].requirement, os[j + 1].added);
            }
          }
        }
      }
    }
  }

  /** A strengthened stage names a stranger to the plan only where it was stated. */
  lemma {:induction false} StrangerNamed(base: seq<PlanStage>, stage: PlanStage, r: RoleRequirement, x: Id)
    requires r.independence.Some? && Strengthened(base, stage, r).Success? && x !in MaterialProducers(base) && x != stage.id
    ensures x in Strengthened(base, stage, r).value.independence.value.differentFrom <==> x in NamedPeers(stage.independence, r.independence.value)
  {
    var stated := NamedPeers(stage.independence, r.independence.value);
    var all := if Produces(stage) then stated else stated + Elements(ProducersFor(base, stage.id));
    var named := Strengthened(base, stage, r).value.independence.value.differentFrom;
    ListingLists(all - {stage.id});
    BindableExactly(StageGraph(base), stage.id, MaterialProducers(base), x);
    assert x in named <==> x in Elements(named);
  }

  /** What the turn of the `i`-th obligation leaves for a later one. */
  lemma {:induction false} LaterSees(stages: seq<PlanStage>, os: seq<Obligation>, i: nat, j: nat)
    requires Suitable(stages, os) && AppliedAll(stages, os).Success? && i < j < |os|
    requires AppliedAll(stages, os[..i]).Success?
    requires Applied(AppliedAll(stages, os[..i]).value, os[i].requirement, os[i].added).Success?
    requires Suitable(AppliedAll(stages, os[..i]).value, os[i..])
    ensures var after := Applied(AppliedAll(stages, os[..i]).value, os[i].requirement, os[i].added).value;
            AddsProducer(after, os[j].requirement) <==> AddsProducer(stages, os[j].requirement)
    ensures os[j].added !in MaterialProducers(WithRole(AppliedAll(stages, os[..i]).value, os[i].requirement.role, os[i].added))
    ensures var base := WithRole(AppliedAll(stages, os[..i]).value, os[i].requirement.role, os[i].added);
            forall m | 0 <= m < |base| :: base[m].id != os[j].added
  {
    var before := AppliedAll(stages, os[..i]).value;
    var r, added := os[i].requirement, os[i].added;
    OthersKeep(stages, os[..i], os[j].requirement.role);
    OtherRoleKept(before, r, added, os[j].requirement.role);
    assert os[i..][0] == os[i] && os[i..][j - i] == os[j];
    StrangerToBase(before, r.role, added, os[j].added);
  }

  lemma {:induction false} StrangerToBase(before: seq<PlanStage>, role: Role, added: Id, x: Id)
    requires !IsStage(before, x) && x != added
    ensures forall m | 0 <= m < |WithRole(before, role, added)| :: WithRole(before, role, added)[m].id != x
    ensures x !in MaterialProducers(WithRole(before, role, added))
  {
    var base := WithRole(before, role, added);
    forall m | 0 <= m < |base| ensures base[m].id != x {
      if m < |before| { assert base[m] == before[m]; }
    }
    MaterialProducersExactly(base, x);
  }

  /**
    Which of the listed obligations validation finds met once all are applied: exactly those
    without independence, and those where every producer of the plan at their turn is named or
    can be bound and every producer a later obligation adds is named already.
   */
  lemma {:induction false} ListMetExactly(stages: seq<PlanStage>, os: seq<Obligation>, i: nat)
    requires Suitable(stages, os) && AppliedAll(stages, os).Success? && i < |os|
    ensures AppliedAll(stages, os[..i]).Success?
    ensures var r := os[i].requirement;
            var base := WithRole(AppliedAll(stages, os[..i]).value, r.role, os[i].added);
            var k := FirstFrom(base, r.role, 0);
            && k < |base|
            && (Met(AppliedAll(stages, os).value, r) <==>
                  r.independence.None?
                  || (CanNameEveryProducer(base, r)
                      && forall j | i < j < |os| && AddsProducer(stages, os[j].requirement) ::
                           os[j].added in NamedPeers(base[k].independence, r.independence.value)))
  {
    AppliedInTurn(stages, os, i);
    var before := AppliedAll(stages, os[..i]).value;
    var r, added, rest := os[i].requirement, os[i].added, os[i + 1..];
    var base := WithRole(before, r.role, added);
    var k := FirstFrom(base, r.role, 0);
    assert os[i..][0] == os[i] && os[i..][1..] == rest;
    assert !IsStage(before, added) && RoleKnown(r) by { assert os[i..][0].added == added; }
    MetExactly(before, r, added);
    AppliedShape(before, r, added);
    var after := Applied(before, r, added).value;
    SuitableNext(before, os[i..]);
    assert forall j | 0 <= j < |rest| :: rest[j] == os[i + 1 + j];
    StaysMet(after, rest, r);
    if r.independence.Some? {
      forall j | i < j < |os|
        ensures AddsProducer(after, os[j].requirement) <==> AddsProducer(stages, os[j].requirement)
        ensures os[j].added in after[k].independence.value.differentFrom <==> os[j].added in NamedPeers(base[k].independence, r.independence.value)
      {
        LaterSees(stages, os, i, j);
        StrangerNamed(base, base[k], r, os[j].added);
      }
      if Met(after, r) {
        assert NamesAllAdded(after, r, rest) <==> forall j | i < j < |os| && AddsProducer(stages, os[j].requirement) ::
                           os[j].added in NamedPeers(base[k].independence, r.independence.value) by {
          RestNamed(stages, after, os, i, r, NamedPeers(base[k].independence, r.independence.value));
        }
      }
    }
  }

  lemma {:induction false} RestNamed(stages: seq<PlanStage>, after: seq<PlanStage>, os: seq<Obligation>, i: nat, r: RoleRequirement, named: set<Id>)
    requires i < |os| && Met(after, r) && r.independence.Some? && FirstFrom(after, r.role, 0) < |after|
    requires forall j | i < j < |os| ::
               && (AddsProducer(after, os[j].requirement) <==> AddsProducer(stages, os[j].requirement))
               && (os[j].added in after[FirstFrom(after, r.role, 0)].independence.value.differentFrom <==> os[j].added in named)
    ensures NamesAllAdded(after, r, os[i + 1..]) <==> forall j | i < j < |os| && AddsProducer(stages, os[j].requirement) :: os[j].added in named
  {
    var rest := os[i + 1..];
    if NamesAllAdded(after, r, rest) {
      forall j | i < j < |os| && AddsProducer(stages, os[j].requirement) ensures os[j].added in named {
        assert NamesWhatIsAdded(after, r, rest[j - i - 1].requirement, rest[j - i - 1].added);
      }
    }
    if forall j | i < j < |os| && AddsProducer(stages, os[j].requirement) :: os[j].added in named {
      forall m | 0 <= m < |rest| ensures NamesWhatIsAdded(after, r, rest[m].requirement, rest[m].added) {
        assert rest[m] == os[i + 1 + m];
      }
    }
  }

  // ---------------------------------------------------------------- the finished plan

  ghost predicate Before(order: seq<Id>, a: Id, b: Id) {
    exists x, y :: 0 <= x < y < |order| && order[x] == a && order[y] == b
  }

  /** Of the role's workers, the one the canonical order of the completed plan has first. */
  ghost predicate ComesFirst(stages: seq<PlanStage>, claims: seq<Id>, role: Role, f: nat) {
    && f < |stages|
    && Performs(stages[f], role)
    && forall j | 0 <= j < |stages| && j != f && Performs(stages[j], role) ::
         Before(Order(StageGraph(Completed(stages, claims))), stages[f].id, stages[j].id)
  }

  /** What validation will find of a worker, read off the stage as it is before completion. */
  ghost predicate StrongEnough(stages: seq<PlanStage>, claims: seq<Id>, f: nat, r: RoleRequirement)
    requires f < |stages|
  {
    var stage := stages[f];
    && (forall c | c in r.capabilities :: c in stage.requiresCapabilities || c in RoleCapabilities(stage.role))
    && TrustStrength(r.trust) <= TrustStrength(stage.trust)
    && (r.independence.Some? ==>
          && stage.independence.Some?
          && DimensionStrength(stage.independence.value.dimension) >= DimensionStrength(r.independence.value.dimension)
          && (stage.independence.value.humanSubstitutionPermitted ==> r.independence.value.humanSubstitutionPermitted)
          && forall p | p in MaterialProducers(stages) && p != stage.id ::
               if Shorthand(stage) then !Reaches(StageGraph(Completed(stages, claims)), p, stage.id)
               else p in stage.independence.value.differentFrom)
  }

  lemma {:induction false} CompletedMeets(stages: seq<PlanStage>, claims: seq<Id>, f: nat, r: RoleRequirement)
    requires Orderable(stages) && AllClear(stages, claims) && f < |stages| && stages[f].kind.AgentStage? && RoleKnown(r)
    ensures StageMeets(MaterialProducers(stages), Completed(stages, claims)[f], r) <==> StrongEnough(stages, claims, f, r)
  {
    EarlierUntouched(stages, claims, f, |stages|);
    forall c | c in r.capabilities
      ensures c in Completed(stages, claims)[f].requiresCapabilities <==> c in stages[f].requiresCapabilities || c in RoleCapabilities(stages[f].role)
    {
      CapabilitiesMerged(stages[f].requiresCapabilities, RoleCapabilities(stages[f].role), c);
    }
    if Shorthand(stages[f]) {
      forall p | p in MaterialProducers(stages) && p != stages[f].id
        ensures p in Completed(stages, claims)[f].independence.value.differentFrom <==> !Reaches(StageGraph(Completed(stages, claims)), p, stages[f].id)
      {
        BindsExactly(stages, claims, f, p);
      }
    }
  }

  lemma {:induction false} CanonicalProducers(stages: seq<PlanStage>, p: Id)
    requires Orderable(stages)
    ensures p in MaterialProducers(Canonical(stages)) <==> p in MaterialProducers(stages)
  {
    var final := Canonical(stages);
    MaterialProducersExactly(stages, p);
    MaterialProducersExactly(final, p);
    if i :| 0 <= i < |stages| && stages[i].id == p && IsProducer(stages[i]) {
      var x := PlaceOf(stages, i);
      assert final[x].id == p && IsProducer(final[x]);
    }
    if x :| 0 <= x < |final| && final[x].id == p && IsProducer(final[x]) {
      var i := EntryStage(stages, x);
      assert stages[i].id == p && IsProducer(stages[i]);
    }
  }

  lemma {:induction false} EntryStage(stages: seq<PlanStage>, x: nat) returns (i: nat)
    requires Orderable(stages) && x < |Order(StageGraph(stages))|
    ensures i < |stages| && x < |Canonical(stages)| && Canonical(stages)[x] == Tidied(stages[i])
    ensures Order(StageGraph(stages))[x] == stages[i].id
  {
    StageGraphEntries(stages);
    OrderLength(StageGraph(stages));
    assert IsStage(stages, Order(StageGraph(stages))[x]);
    i :| 0 <= i < |stages| && stages[i].id == Order(StageGraph(stages))[x];
    StageOfExactly(stages, i);
  }

  lemma {:induction false} NotBefore(order: seq<Id>, y: nat, x: nat)
    requires Distinct(order) && y < x < |order|
    ensures !Before(order, order[x], order[y])
  {
  }

  /** The worker validation reads is the one that comes first. */
  lemma {:induction false} FirstInTheEnd(stages: seq<PlanStage>, claims: seq<Id>, role: Role, f: nat)
    requires Orderable(stages) && AllClear(stages, claims) && ComesFirst(stages, claims, role, f)
    ensures var final := Canonical(Completed(stages, claims));
            var c := FirstFrom(final, role, 0);
            c < |final| && final[c] == Tidied(Completed(stages, claims)[f])
  {
    var after := Completed(stages, claims);
    var order := Order(StageGraph(after));
    CompletionKeeps(stages, claims, |stages|);
    CompletionShape(stages, claims, |stages|);
    assert SameShape(after[f], stages[f]);
    OrderLength(StageGraph(after));
    var x := PlaceOf(after, f);
    forall y | 0 <= y < x ensures !Performs(Canonical(after)[y], role) {
      var j := EntryStage(after, y);
      assert SameShape(after[j], stages[j]);
      NotBefore(order, y, x);
    }
    FirstUnique(Canonical(after), role, 0, x);
  }

  lemma {:induction false} NotBeforeFirst(stages: seq<PlanStage>, role: Role, j: nat)
    requires Orderable(stages) && j < |stages| && Performs(stages[j], role)
    ensures var order, x := Order(StageGraph(stages)), FirstFrom(Canonical(stages), role, 0);
            x < |order| && (order[x] == stages[j].id || Before(order, order[x], stages[j].id))
  {
    var y := PlaceOf(stages, j);
    FirstOrLater(Canonical(stages), Order(StageGraph(stages)), role, y);
  }

  lemma {:induction false} FirstOrLater(stages: seq<PlanStage>, order: seq<Id>, role: Role, y: nat)
    requires |order| == |stages| && y < |stages| && Performs(stages[y], role)
    ensures var x := FirstFrom(stages, role, 0); x < |order| && (order[x] == order[y] || Before(order, order[x], order[y]))
  {
    assert FirstFrom(stages, role, 0) <= y;
  }

  /** Where the canonical order has a stage. */
  lemma {:induction false} PlaceOf(stages: seq<PlanStage>, j: nat) returns (y: nat)
    requires Orderable(stages) && j < |stages|
    ensures |Canonical(stages)| == |Order(StageGraph(stages))| && y < |Canonical(stages)|
    ensures Canonical(stages)[y] == Tidied(stages[j]) && Order(StageGraph(stages))[y] == stages[j].id
  {
    CanonicalHas(stages, j);
    y :| 0 <= y < |Canonical(stages)| && Canonical(stages)[y] == Tidied(stages[j]);
    CanonicalEntry(stages, y);
  }

  lemma {:induction false} SomeComesFirst(stages: seq<PlanStage>, claims: seq<Id>, role: Role) returns (f: nat)
    requires Orderable(stages) && AllClear(stages, claims) && FirstFrom(stages, role, 0) < |stages|
    ensures ComesFirst(stages, claims, role, f)
  {
    var after := Completed(stages, claims);
    var order := Order(StageGraph(after));
    CompletionKeeps(stages, claims, |stages|);
    CompletionShape(stages, claims, |stages|);
    var x := FirstFrom(Canonical(after), role, 0);
    forall j | 0 <= j < |stages| && Performs(stages[j], role)
      ensures x < |order| && (order[x] == stages[j].id || Before(order, order[x], stages[j].id))
    {
      assert SameShape(after[j], stages[j]);
      NotBeforeFirst(after, role, j);
    }
    f := EntryStage(after, x);
    assert SameShape(after[f], stages[f]);
  }

  /**
    What validation finds in the finished plan: a role's requirement is met there exactly when
    the worker of that role the canonical order has first is strong enough.
   */
  lemma {:induction false} MetInTheEnd(stages: seq<PlanStage>, claims: seq<Id>, r: RoleRequirement, f: nat)
    requires Orderable(stages) && AllClear(stages, claims) && RoleKnown(r) && ComesFirst(stages, claims, r.role, f)
    ensures Met(Canonical(Completed(stages, claims)), r) <==> StrongEnough(stages, claims, f, r)
  {
    var after := Completed(stages, claims);
    FirstInTheEnd(stages, claims, r.role, f);
    CompletedMeets(stages, claims, f, r);
    CompletionKeeps(stages, claims, |stages|);
    ProducersKept(stages, claims, |stages|);
    forall p ensures p in MaterialProducers(Canonical(after)) <==> p in MaterialProducers(stages) {
      CanonicalProducers(after, p);
    }
  }

  /** A strengthened stage states its peers and holds every capability asked. */
  lemma {:induction false} StrengthenedStated(base: seq<PlanStage>, stage: PlanStage, r: RoleRequirement)
    requires Strengthened(base, stage, r).Success? && RoleKnown(r)
    ensures forall c | c in r.capabilities :: c in Strengthened(base, stage, r).value.requiresCapabilities
    ensures r.independence.Some? ==> !Shorthand(Strengthened(base, stage, r).value)
  {
    forall c | c in r.capabilities ensures c in Strengthened(base, stage, r).value.requiresCapabilities {
      CapabilitiesMerged(stage.requiresCapabilities, r.capabilities, c);
    }
    if r.independence.Some? {
      var stated := NamedPeers(stage.independence, r.independence.value);
      var all := if Produces(stage) then stated else stated + Elements(ProducersFor(base, stage.id));
      ListingLists(all - {stage.id});
    }
  }

  /** What the whole list leaves of the stage the `i`-th obligation fell on. */
  lemma {:induction false} StrengthenedInTheEnd(stages: seq<PlanStage>, os: seq<Obligation>, i: nat)
    requires Suitable(stages, os) && AppliedAll(stages, os).Success? && i < |os|
    ensures var applied, r := AppliedAll(stages, os).value, os[i].requirement;
            var k := FirstFrom(applied, r.role, 0);
            && k < |applied|
            && (forall c | c in r.capabilities :: c in applied[k].requiresCapabilities)
            && (r.independence.Some? ==> !Shorthand(applied[k]))
  {
    var r, added, rest := os[i].requirement, os[i].added, os[i + 1..];
    AppliedInTurn(stages, os, i);
    var before := AppliedAll(stages, os[..i]).value;
    assert os[i..][0] == os[i] && os[i..][1..] == rest;
    AppliedShape(before, r, added);
    var base := WithRole(before, r.role, added);
    StrengthenedStated(base, base[FirstFrom(base, r.role, 0)], r);
    assert forall j | 0 <= j < |rest| :: rest[j] == os[i + 1 + j];
    OthersKeep(Applied(before, r, added).value, rest, r.role);
  }

  /**
    Policy's obligation in the finished plan. Where the worker it fell on still comes first,
    it is met exactly when it was once all obligations were applied; where another worker of
    the role comes first, exactly when that one is strong enough by itself.
   */
  lemma {:induction false} PolicyMetInTheEnd(stages: seq<PlanStage>, os: seq<Obligation>, i: nat, claims: seq<Id>, f: nat)
    requires Suitable(stages, os) && AppliedAll(stages, os).Success? && i < |os|
    requires var applied := AppliedAll(stages, os).value;
             Orderable(applied) && AllClear(applied, claims) && ComesFirst(applied, claims, os[i].requirement.role, f)
    ensures var applied, r := AppliedAll(stages, os).value, os[i].requirement;
            Met(Canonical(Completed(applied, claims)), r) <==>
              if f == FirstFrom(applied, r.role, 0) then Met(applied, r) else StrongEnough(applied, claims, f, r)
  {
    var r := os[i].requirement;
    assert RoleKnown(r);
    StrengthenedInTheEnd(stages, os, i);
    MetInTheEnd(AppliedAll(stages, os).value, claims, r, f);
  }

  // ---------------------------------------------------------------- plans policy makes and then refuses

  function Worker(id: Id, role: Role, dependsOn: seq<Id>): PlanStage {
    AddedStage(id, role, dependsOn)
  }

  function Independent(role: Role): RoleRequirement {
    RoleRequirement(role, [], Some(Independence(AgentProfileDimension, [], false)), Unstated)
  }

  /** What policy's obligation makes of a worker that states nothing, where one producer can be bound. */
  lemma {:induction false} BoundToOne(stages: seq<PlanStage>, role: Role, k: nat, p: Id, added: Id)
    requires DistinctStages(stages) && k < |stages| && FirstFrom(stages, role, 0) == k && !ProducesMaterialChange(role)
    requires stages[k].independence.None? && p != stages[k].id
    requires forall q :: q in MaterialProducers(stages) && q != stages[k].id && !Reaches(StageGraph(stages), q, stages[k].id) <==> q == p
    ensures var applied := Applied(stages, Independent(role), added);
            && applied.Success? && applied.value == stages[k := applied.value[k]]
            && Kept(stages[k], applied.value[k])
            && applied.value[k].independence == Some(Independence(AgentProfileDimension, [p], false))
  {
    var self := stages[k].id;
    forall q ensures q in ProducersFor(stages, self) <==> q == p { ProducersForExactly(stages, self, q); }
    assert Elements(ProducersFor(stages, self)) - {self} == {p};
    assert NamedPeers(None, Independence(AgentProfileDimension, [], false)) == {};
    assert {} + Elements(ProducersFor(stages, self)) == Elements(ProducersFor(stages, self));
    ListingOne(p);
    StrengthenedKept(stages, stages[k], Independent(role));
  }

  lemma ListingOne(p: Id)
    ensures Listing({p}) == [p]
  {
    assert {p} - {p} == {};
  }

  ghost predicate Below(stages: seq<PlanStage>, stage: PlanStage) {
    forall d | d in stage.dependsOn :: d < stage.id && IsStage(stages, d)
  }

  lemma {:induction false} DescendingOrderable(stages: seq<PlanStage>)
    requires DistinctStages(stages)
    requires forall i | 0 <= i < |stages| :: Below(stages, stages[i])
    ensures Orderable(stages)
  {
    var g := StageGraph(stages);
    StageGraphEntries(stages);
    forall a, d | a in g && d in g[a] ensures d < a && d in g {
      assert IsStage(stages, a);
      var i :| 0 <= i < |stages| && stages[i].id == a;
      assert g[stages[i].id] == stages[i].dependsOn;
      assert Below(stages, stages[i]);
    }
    DescendingAcyclic(g);
  }

  lemma {:induction false} FirstThere(stages: seq<PlanStage>, role: Role, k: nat)
    requires k < |stages| && Performs(stages[k], role) && forall j | 0 <= j < k :: !Performs(stages[j], role)
    ensures FirstFrom(stages, role, 0) == k
  {
    FirstUnique(stages, role, 0, k);
  }

  /** Two reviewers; the one stated first depends on the other. */
  ghost predicate ReviewedTwice(stages: seq<PlanStage>) {
    && |stages| == 3
    && stages[0] == Worker(0, Implementer, [])
    && stages[1] == Worker(2, Reviewer, [0, 1])
    && stages[2] == Worker(1, Reviewer, [0])
  }

  lemma {:induction false} TwiceShape(stages: seq<PlanStage>)
    requires ReviewedTwice(stages)
    ensures Orderable(stages)
    ensures forall q :: q in MaterialProducers(stages) <==> q == 0
    ensures !Reaches(StageGraph(stages), 0, 2)
    ensures FirstFrom(stages, Reviewer, 0) == 1
  {
    var g := StageGraph(stages);
    FirstThere(stages, Reviewer, 1);
    assert stages[0].id == 0 && stages[2].id == 1;
    DescendingOrderable(stages);
    StageGraphEntries(stages);
    forall q ensures q in MaterialProducers(stages) <==> q == 0 {
      MaterialProducersExactly(stages, q);
      assert IsProducer(stages[0]);
    }
    if Reaches(g, 0, 2) {
      assert g[stages[0].id] == [];
      var d := ReachesFirst(g, 0, 2);
    }
  }

  lemma {:induction false} TwiceApplied(stages: seq<PlanStage>)
    requires ReviewedTwice(stages)
    ensures Applied(stages, Independent(Reviewer), 3).Success?
    ensures var applied := Applied(stages, Independent(Reviewer), 3).value;
            && applied == stages[1 := applied[1]] && Kept(stages[1], applied[1])
            && applied[1].independence == Some(Independence(AgentProfileDimension, [0], false))
            && Orderable(applied) && MaterialProducers(applied) == MaterialProducers(stages) && FirstFrom(applied, Reviewer, 0) == 1
  {
    TwiceShape(stages);
    BoundToOne(stages, Reviewer, 1, 0, 3);
    var applied := Applied(stages, Independent(Reviewer), 3).value;
    SameStageGraph(stages, 1, applied[1]);
    FirstThere(applied, Reviewer, 1);
  }

  lemma {:induction false} TwiceClear(stages: seq<PlanStage>, applied: seq<PlanStage>, claims: seq<Id>)
    requires ReviewedTwice(stages) && |applied| == 3 && applied == stages[1 := applied[1]] && Kept(stages[1], applied[1])
    requires applied[1].independence == Some(Independence(AgentProfileDimension, [0], false)) && Orderable(applied)
    ensures AllClear(applied, claims)
  {
    forall i | 0 <= i < 3 ensures Clear(applied, claims, i) {
      if i == 1 { assert applied[1].dependsOn == [0, 1] && [0, 1][0] == 0; }
    }
  }

  /**
    Two reviewers: policy strengthens the one stated first, the canonical order has the other
    first, and validation refuses the plan policy has just completed.
   */
  lemma {:induction false} SecondReviewerRead(stages: seq<PlanStage>, claims: seq<Id>)
    requires ReviewedTwice(stages)
    ensures var applied := Applied(stages, Independent(Reviewer), 3);
            && Orderable(stages) && applied.Success? && Met(applied.value, Independent(Reviewer))
            && Orderable(Completed(applied.value, claims))
            && !Met(Canonical(Completed(applied.value, claims)), Independent(Reviewer))
  {
    TwiceShape(stages);
    TwiceApplied(stages);
    var applied := Applied(stages, Independent(Reviewer), 3).value;
    TwiceClear(stages, applied, claims);
    CompletionKeeps(applied, claims, 3);
    OneBeforeTwo(applied, claims);
    MetInTheEnd(applied, claims, Independent(Reviewer), 2);
  }

  lemma {:induction false} OneBeforeTwo(stages: seq<PlanStage>, claims: seq<Id>)
    requires Orderable(stages) && AllClear(stages, claims) && |stages| == 3
    requires stages[0].role == Some(Implementer)
    requires stages[1].id == 2 && 1 in stages[1].dependsOn
    requires stages[2].id == 1 && Performs(stages[2], Reviewer)
    ensures ComesFirst(stages, claims, Reviewer, 2)
  {
    var after := Completed(stages, claims);
    var g := StageGraph(after);
    CompletionKeeps(stages, claims, 3);
    CompletedEdge(stages, claims, 1, 1);
    CompletionShape(stages, claims, 3);
    assert SameShape(after[1], stages[1]);
    var x := PlaceOf(after, 1);
    ReachesEdge(g, 2, 1);
    ReachesEarlier(g, x, 1);
    var y :| 0 <= y < x && Order(g)[y] == 1;
    assert Before(Order(g), 1, 2);
  }

  lemma {:induction false} CompletedEdge(stages: seq<PlanStage>, claims: seq<Id>, i: nat, d: Id)
    requires i < |stages| && DistinctStages(stages)
    requires d in stages[i].dependsOn || d in PeersOf(CompletedTo(stages, claims, i), stages[i])
    ensures d in Deps(StageGraph(Completed(stages, claims)), stages[i].id)
  {
    var after := Completed(stages, claims);
    CompletedDistinct(stages, claims, |stages|);
    CompletionShape(stages, claims, |stages|);
    EarlierUntouched(stages, claims, i, |stages|);
    CompletionDepends(CompletedTo(stages, claims, i), stages[i], claims, d);
    StageGraphEntries(after);
    assert SameShape(after[i], stages[i]);
  }

  /** Two reviewers, each with a producer behind it. */
  ghost predicate ReviewedInTurn(stages: seq<PlanStage>) {
    && |stages| == 4
    && stages[0] == Worker(1, Reviewer, [])
    && stages[1] == Worker(2, Implementer, [1])
    && stages[2] == Worker(3, SecurityReviewer, [])
    && stages[3] == Worker(4, Implementer, [3])
  }

  lemma {:induction false} InTurn(stages: seq<PlanStage>)
    requires ReviewedInTurn(stages)
    ensures Orderable(stages)
    ensures Reaches(StageGraph(stages), 2, 1) && Reaches(StageGraph(stages), 4, 3)
    ensures !Reaches(StageGraph(stages), 2, 3) && !Reaches(StageGraph(stages), 4, 1)
    ensures FirstFrom(stages, SecurityReviewer, 0) == 2
  {
    var g := StageGraph(stages);
    assert stages[0].id == 1 && stages[2].id == 3;
    DescendingOrderable(stages);
    StageGraphEntries(stages);
    FirstThere(stages, SecurityReviewer, 2);
    assert g[stages[0].id] == [] && g[stages[1].id] == [1] && g[stages[2].id] == [] && g[stages[3].id] == [3];
    ReachesEdge(g, 2, 1);
    ReachesEdge(g, 4, 3);
    if Reaches(g, 2, 3) { ClosedUnderReach(g, {2, 1}, 2, 3); }
    if Reaches(g, 4, 1) { ClosedUnderReach(g, {4, 3}, 4, 1); }
  }

  lemma {:induction false} InTurnProducers(stages: seq<PlanStage>)
    requires ReviewedInTurn(stages)
    ensures forall q :: q in MaterialProducers(stages) <==> q == 2 || q == 4
  {
    forall q ensures q in MaterialProducers(stages) <==> q == 2 || q == 4 {
      MaterialProducersExactly(stages, q);
      assert IsProducer(stages[1]) && IsProducer(stages[3]);
    }
  }

  /** The second obligation binds the first reviewer the same way: the first changed no edge. */
  lemma {:induction false} InTurnNext(stages: seq<PlanStage>, next: seq<PlanStage>)
    requires ReviewedInTurn(stages) && |next| == 4 && next == stages[2 := next[2]] && Kept(stages[2], next[2])
    ensures Applied(next, Independent(Reviewer), 6).Success?
    ensures var applied := Applied(next, Independent(Reviewer), 6).value;
            && applied == next[0 := applied[0]] && Kept(stages[0], applied[0])
            && applied[0].independence == Some(Independence(AgentProfileDimension, [4], false))
            && StageGraph(applied) == StageGraph(stages) && DistinctStages(applied)
  {
    InTurn(stages);
    InTurnProducers(stages);
    SameStageGraph(stages, 2, next[2]);
    FirstThere(next, Reviewer, 0);
    assert DistinctStages(next);
    BoundToOne(next, Reviewer, 0, 4, 6);
    var applied := Applied(next, Independent(Reviewer), 6).value;
    SameStageGraph(next, 0, applied[0]);
  }

  lemma {:induction false} AppliedTwo(stages: seq<PlanStage>, a: Obligation, b: Obligation)
    requires Applied(stages, a.requirement, a.added).Success?
    ensures AppliedAll(stages, [a, b]) == Applied(Applied(stages, a.requirement, a.added).value, b.requirement, b.added)
    ensures AppliedAll(stages, [a]) == Applied(stages, a.requirement, a.added)
  {
    var next := Applied(stages, a.requirement, a.added).value;
    assert [a, b][1..] == [b] && [b][1..] == [] && [a][1..] == [];
    assert AppliedAll(next, [b]) == Applied(next, b.requirement, b.added);
  }

  /**
    Two reviewers bound around each other's producers: each obligation is applied to a plan
    without a cycle, and completing the two closes one, which validation refuses.
   */
  lemma {:induction false} ReviewersInterlock(stages: seq<PlanStage>, claims: seq<Id>)
    requires ReviewedInTurn(stages)
    ensures var applied := AppliedAll(stages, [Obligation(Independent(SecurityReviewer), 5), Obligation(Independent(Reviewer), 6)]);
            && Orderable(stages) && applied.Success? && Orderable(applied.value)
            && !Orderable(Completed(applied.value, claims))
  {
    InTurn(stages);
    InTurnProducers(stages);
    BoundToOne(stages, SecurityReviewer, 2, 2, 5);
    var next := Applied(stages, Independent(SecurityReviewer), 5).value;
    InTurnNext(stages, next);
    AppliedTwo(stages, Obligation(Independent(SecurityReviewer), 5), Obligation(Independent(Reviewer), 6));
    ClosesLoop(Applied(next, Independent(Reviewer), 6).value, claims);
  }

  lemma {:induction false} ClosesLoop(stages: seq<PlanStage>, claims: seq<Id>)
    requires |stages| == 4 && DistinctStages(stages)
    requires stages[0].id == 1 && stages[0].kind.AgentStage? && stages[0].independence.Some? && stages[0].independence.value.differentFrom == [4]
    requires stages[1].id == 2 && stages[1].dependsOn == [1]
    requires stages[2].id == 3 && stages[2].kind.AgentStage? && stages[2].independence.Some? && stages[2].independence.value.differentFrom == [2]
    requires stages[3].id == 4 && stages[3].dependsOn == [3]
    ensures !Orderable(Completed(stages, claims))
  {
    var g := StageGraph(Completed(stages, claims));
    CompletedEdge(stages, claims, 0, 4);
    CompletedEdge(stages, claims, 1, 1);
    CompletedEdge(stages, claims, 2, 2);
    CompletedEdge(stages, claims, 3, 3);
    var p := [1, 4, 3, 2, 1];
    assert IsPath(g, p) && p[0] == 1 && p[|p| - 1] == 1;
    assert Reaches(g, 1, 1);
  }

  /** A reviewer and no integrator. */
  ghost predicate ReviewedOnly(stages: seq<PlanStage>) {
    |stages| == 2 && stages[0] == Worker(0, Implementer, []) && stages[1] == Worker(1, Reviewer, [0])
  }

  lemma {:induction false} OnlyShape(stages: seq<PlanStage>)
    requires ReviewedOnly(stages)
    ensures Orderable(stages)
    ensures forall q :: q in MaterialProducers(stages) <==> q == 0
    ensures !Reaches(StageGraph(stages), 0, 1)
    ensures FirstFrom(stages, Reviewer, 0) == 1 && FirstFrom(stages, Integrator, 0) == 2
  {
    var g := StageGraph(stages);
    assert stages[0].id == 0;
    DescendingOrderable(stages);
    StageGraphEntries(stages);
    FirstThere(stages, Reviewer, 1);
    NoneFrom(stages, Integrator, 0);
    forall q ensures q in MaterialProducers(stages) <==> q == 0 {
      MaterialProducersExactly(stages, q);
      assert IsProducer(stages[0]);
    }
    if Reaches(g, 0, 1) {
      assert g[stages[0].id] == [];
      var d := ReachesFirst(g, 0, 1);
    }
  }

  lemma {:induction false} OnlyApplied(stages: seq<PlanStage>)
    requires ReviewedOnly(stages)
    ensures Applied(stages, Independent(Reviewer), 2).Success?
    ensures var next := Applied(stages, Independent(Reviewer), 2).value;
            && next == stages[1 := next[1]] && Kept(stages[1], next[1])
            && next[1].independence == Some(Independence(AgentProfileDimension, [0], false))
            && Met(next, Independent(Reviewer)) && FirstFrom(next, Reviewer, 0) == 1 && FirstFrom(next, Integrator, 0) == 2
            && DistinctStages(next) && !IsStage(next, 3)
  {
    OnlyShape(stages);
    BoundToOne(stages, Reviewer, 1, 0, 2);
    var next := Applied(stages, Independent(Reviewer), 2).value;
    SameStageGraph(stages, 1, next[1]);
    FirstThere(next, Reviewer, 1);
    NoneFrom(next, Integrator, 0);
  }

  const INTEGRATION := RoleRequirement(Integrator, [], None, Unstated)

  lemma {:induction false} IntegratorAdded(stages: seq<PlanStage>, added: Id)
    requires FirstFrom(stages, Integrator, 0) == |stages|
    ensures Applied(stages, INTEGRATION, added).Success?
  {
    FirstIsAdded(stages, Integrator, AddedStage(added, Integrator, MaterialProducers(stages)));
  }

  /** What binding the reviewer alone leaves; the integrator then added is not named. */
  lemma {:induction false} NotAnyMore(next: seq<PlanStage>)
    requires |next| == 2 && DistinctStages(next) && !IsStage(next, 3)
    requires FirstFrom(next, Reviewer, 0) == 1 && FirstFrom(next, Integrator, 0) == 2
    requires next[1].independence == Some(Independence(AgentProfileDimension, [0], false))
    ensures Applied(next, INTEGRATION, 3).Success? && !Met(Applied(next, INTEGRATION, 3).value, Independent(Reviewer))
  {
    IntegratorAdded(next, 3);
    MetUnderAnother(next, Independent(Reviewer), INTEGRATION, 3);
  }

  /**
    A reviewer and no integrator: policy binds the reviewer, then adds the integrator it also
    requires, which the reviewer does not name; what was met is not any more.
   */
  lemma {:induction false} IntegratorAddedLater(stages: seq<PlanStage>)
    requires ReviewedOnly(stages)
    ensures var review, integrate := Obligation(Independent(Reviewer), 2), Obligation(INTEGRATION, 3);
            && Orderable(stages) && AppliedAll(stages, [review]).Success? && AppliedAll(stages, [review, integrate]).Success?
            && Met(AppliedAll(stages, [review]).value, Independent(Reviewer))
            && !Met(AppliedAll(stages, [review, integrate]).value, Independent(Reviewer))
  {
    OnlyShape(stages);
    OnlyApplied(stages);
    AppliedTwo(stages, Obligation(Independent(Reviewer), 2), Obligation(INTEGRATION, 3));
    NotAnyMore(Applied(stages, Independent(Reviewer), 2).value);
  }
}
