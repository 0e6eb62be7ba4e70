/** What the bounds of a resolved plan add up to: from the operator's ceiling to the assignments workers are given. */
module BudgetLaws {
  import opened Ids
  import opened Vocabulary
  import opened Plans
  import opened Budgets
  import opened Resolver

  function TotalInvocations(assignments: seq<Assignment>): int {
    if assignments == [] then 0
    else TotalInvocations(assignments[..|assignments| - 1]) + assignments[|assignments| - 1].budget.maxProviderInvocations
  }

  function TotalWall(assignments: seq<Assignment>): int {
    if assignments == [] then 0
    else TotalWall(assignments[..|assignments| - 1]) + assignments[|assignments| - 1].budget.maxWallSeconds
  }

  // ---------------------------------------------------------------- bound by bound

  /** A bound after a limit: one of the two, the lesser of those there are; no positive limit changes nothing. */
  ghost predicate Limited(own: int, limit: int, r: int) {
    if limit <= 0 then r == own
    else 0 < r <= limit && (r == own || r == limit) && (own > 0 ==> r <= own)
  }

  /** An operator's ceiling has every bound but the cost; a limit beyond it changes nothing. */
  lemma TightenedExactly(ceiling: Envelope, proposal: Envelope)
    requires ceiling.maxChildRuns > 0 && ceiling.maxConcurrency > 0 && ceiling.maxProviderInvocations > 0
    ensures var r := Budgets.Resolved(ceiling, Some(proposal));
            && Limited(ceiling.maxChildRuns, proposal.maxChildRuns, r.maxChildRuns)
            && Limited(ceiling.maxConcurrency, proposal.maxConcurrency, r.maxConcurrency)
            && Limited(ceiling.maxProviderInvocations, proposal.maxProviderInvocations, r.maxProviderInvocations)
            && (if ceiling.maxWallSeconds > 0 then Limited(ceiling.maxWallSeconds, proposal.maxWallSeconds, r.maxWallSeconds)
                else r.maxWallSeconds == ceiling.maxWallSeconds)
            && (r.maxCostMicros.Some? <==> ceiling.maxCostMicros.Some?)
            && (ceiling.maxCostMicros.Some? ==>
                  && r.maxCostMicros.value <= ceiling.maxCostMicros.value
                  && (r.maxCostMicros == ceiling.maxCostMicros || r.maxCostMicros == proposal.maxCostMicros)
                  && (proposal.maxCostMicros.Some? ==> r.maxCostMicros.value <= proposal.maxCostMicros.value))
    ensures Budgets.Resolved(ceiling, None) == ceiling
  {
  }

  /** Whether a plan fits: the operator states every bound, and neither it nor a positive template bound is below the number of workers. */
  lemma AffordsExactly(operator: Envelope, template: Option<Envelope>, agents: nat)
    ensures Affords(operator, template, agents) <==>
              && operator.maxChildRuns >= 1 && operator.maxConcurrency >= 1 && operator.maxProviderInvocations >= 1
              && operator.maxChildRuns >= agents && operator.maxProviderInvocations >= agents
              && match template
                 case None => true
                 case Some(t) => (t.maxChildRuns >= 1 ==> t.maxChildRuns >= agents) && (t.maxProviderInvocations >= 1 ==> t.maxProviderInvocations >= agents)
  {
  }

  /** A worker's share leaves everything about it but two bounds, each its own or its share, whichever is the lesser. */
  lemma SharedExactly(stated: seq<PlanStage>, stages: seq<PlanStage>, envelope: Envelope, i: nat)
    requires AgentCount(stated) > 0 && SharedOut(stated, stages, envelope) && i < |stages| && envelope.maxProviderInvocations >= AgentCount(stated)
    ensures !stated[i].kind.AgentStage? ==> stages[i] == stated[i]
    ensures stated[i].kind.AgentStage? ==>
              && stages[i] == stated[i].(budget := stages[i].budget)
              && stages[i].budget.maxExecutionAttempts == stated[i].budget.maxExecutionAttempts
              && Limited(stated[i].budget.maxProviderInvocations, envelope.maxProviderInvocations / AgentCount(stated), stages[i].budget.maxProviderInvocations)
              && Limited(stated[i].budget.maxWallSeconds,
                         if envelope.maxWallSeconds > 0 then envelope.maxWallSeconds / AgentCount(stated) else 0, stages[i].budget.maxWallSeconds)
  {
    ShareFits(envelope.maxProviderInvocations, AgentCount(stated));
  }

  function LimitOf(limit: Option<int>): int {
    if limit.None? then 0 else limit.value
  }

  /** What a profile narrows: each bound its own or the profile's; a retry bound is introduced only where it fits the total. */
  lemma NarrowedExactly(budget: StageBudget, constraints: ProfileConstraints)
    ensures var r := TightenedByProfile(budget, constraints);
            && Limited(budget.maxWallSeconds, LimitOf(constraints.maxWallSeconds), r.maxWallSeconds)
            && Limited(budget.maxProviderInvocations, LimitOf(constraints.maxProviderInvocations), r.maxProviderInvocations)
            && (if budget.maxExecutionAttempts <= 0 && r.maxProviderInvocations > 0 && LimitOf(constraints.maxExecutionAttempts) > r.maxProviderInvocations
                then r.maxExecutionAttempts == budget.maxExecutionAttempts
                else Limited(budget.maxExecutionAttempts, LimitOf(constraints.maxExecutionAttempts), r.maxExecutionAttempts))
  {
  }

  // ---------------------------------------------------------------- what the bounds add up to

  /** What was assigned or authorized before keeps inside the bounds the plan's stage has now. */
  ghost predicate CarriedInside(env: Env, stages: seq<PlanStage>) {
    forall i | 0 <= i < |stages| && stages[i].kind.AgentStage? ::
      && (stages[i].id in env.frozen ==> Inside(env.frozen[stages[i].id].budget, stages[i].budget))
      && (stages[i].id in env.authorized ==> Inside(env.authorized[stages[i].id].budget, stages[i].budget))
  }

  /** Every assignment so far is inside the bounds of the stage it was given for. */
  ghost predicate AllInside(p: Progress, invocations: int, wall: int) {
    forall a | a in p.resolution.assignments ::
      0 < a.budget.maxProviderInvocations <= invocations && (wall > 0 ==> 0 < a.budget.maxWallSeconds <= wall)
  }

  /** A stage whose bounds are within the shares. */
  predicate InShare(stage: PlanStage, invocations: int, wall: int) {
    stage.kind.AgentStage? ==>
      0 < stage.budget.maxProviderInvocations <= invocations && (wall > 0 ==> 0 < stage.budget.maxWallSeconds <= wall)
  }

  /** How many stages have been decided, one way or the other. */
  function DecidedCount(p: Progress): nat {
    |p.resolution.assignments| + |p.resolution.blocked|
  }

  lemma {:induction false} AssignInside(p: Progress, stage: PlanStage, a: Assignment, invocations: int, wall: int)
    requires AllInside(p, invocations, wall) && stage.kind.AgentStage? && InShare(stage, invocations, wall) && Inside(a.budget, stage.budget)
    ensures AllInside(Assign(p, stage.id, a), invocations, wall) && DecidedCount(Assign(p, stage.id, a)) == DecidedCount(p) + 1
  {
    assert forall x | x in p.resolution.assignments + [a] :: x in p.resolution.assignments || x == a;
  }

  /** A worker freshly chosen keeps the stage's bounds, narrowed by its profile. */
  lemma {:induction false} FreshInside(env: Env, stage: PlanStage, workers: map<Id, Assignment>)
    requires OutcomeOf(env, stage, workers).Fresh?
    ensures Inside(OutcomeOf(env, stage, workers).assignment.budget, stage.budget)
  {
  }

  lemma {:induction false} OneInside(env: Env, stages: seq<PlanStage>, i: nat, p: Progress, invocations: int, wall: int)
    requires i < |stages| && CarriedInside(env, stages) && AllInside(p, invocations, wall) && InShare(stages[i], invocations, wall)
    requires ResolveOne(env, stages[i], p).Some?
    ensures var q := ResolveOne(env, stages[i], p).value;
            AllInside(q, invocations, wall) && DecidedCount(q) == DecidedCount(p) + if stages[i].kind.AgentStage? then 1 else 0
  {
    var stage := stages[i];
    if stage.kind.AgentStage? {
      if stage.id in env.frozen {
        AssignInside(p, stage, env.frozen[stage.id], invocations, wall);
      } else if stage.id in env.authorized {
        AssignInside(p, stage, RebindUpstream(env.authorized[stage.id], UpstreamFor(env, stage.id)), invocations, wall);
      } else if !MissingArtifact(env, stage) && OutcomeOf(env, stage, p.workers).Fresh? {
        FreshInside(env, stage, p.workers);
        AssignInside(p, stage, OutcomeOf(env, stage, p.workers).assignment, invocations, wall);
      }
    }
  }

  lemma {:induction false} ResolvingInside(env: Env, stages: seq<PlanStage>, n: nat, invocations: int, wall: int)
    requires n <= |stages| && CarriedInside(env, stages) && Resolving(env, stages, n).Some?
    requires forall i | 0 <= i < |stages| :: InShare(stages[i], invocations, wall)
    ensures AllInside(Resolving(env, stages, n).value, invocations, wall)
    ensures DecidedCount(Resolving(env, stages, n).value) == AgentCount(stages[..n])
  {
    if n > 0 {
      ResolvingInside(env, stages, n - 1, invocations, wall);
      OneInside(env, stages, n - 1, Resolving(env, stages, n - 1).value, invocations, wall);
      assert stages[..n][..n - 1] == stages[..n - 1];
    }
  }

  lemma {:induction false} InvocationsBounded(assignments: seq<Assignment>, share: int)
    requires forall a | a in assignments :: a.budget.maxProviderInvocations <= share
    ensures TotalInvocations(assignments) <= |assignments| * share
  {
    if assignments != [] {
      InvocationsBounded(assignments[..|assignments| - 1], share);
      assert assignments[|assignments| - 1] in assignments;
    }
  }

  lemma {:induction false} WallBounded(assignments: seq<Assignment>, share: int)
    requires forall a | a in assignments :: a.budget.maxWallSeconds <= share
    ensures TotalWall(assignments) <= |assignments| * share
  {
    if assignments != [] {
      WallBounded(assignments[..|assignments| - 1], share);
      assert assignments[|assignments| - 1] in assignments;
    }
  }

  lemma {:induction false} WallAtLeastOnce(assignments: seq<Assignment>)
    requires forall a | a in assignments :: a.budget.maxWallSeconds >= 1
    ensures TotalWall(assignments) >= |assignments|
  {
    if assignments != [] {
      WallAtLeastOnce(assignments[..|assignments| - 1]);
      assert assignments[|assignments| - 1] in assignments;
    }
  }

  lemma Fewer(placed: nat, agents: nat, share: int, total: int)
    requires placed <= agents && share >= 0 && agents * share <= total
    ensures placed * share <= total
  {
    assert placed * share <= agents * share;
  }

  /** A plan shared out under a ceiling that affords it, resolved with nothing carried over beyond its stage's bounds. */
  ghost predicate ResolvedUnder(stated: seq<PlanStage>, input: Input, operator: Envelope, template: Option<Envelope>, r: Resolution) {
    && AgentCount(stated) > 0 && Affords(operator, template, AgentCount(stated))
    && SharedOut(stated, input.stages, Budgets.Resolved(operator, template))
    && CarriedInside(EnvOf(input), input.stages)
    && ResolutionOf(input) == Some(r)
  }

  lemma {:induction false} ResolutionInside(stated: seq<PlanStage>, input: Input, operator: Envelope, template: Option<Envelope>, r: Resolution)
    requires ResolvedUnder(stated, input, operator, template, r)
    ensures var envelope, agents := Budgets.Resolved(operator, template), AgentCount(stated);
            && |r.assignments| + |r.blocked| == agents
            && (forall a | a in r.assignments :: 0 < a.budget.maxProviderInvocations <= InvocationShare(envelope, agents))
            && (WallShare(envelope, agents) > 0 ==>
                  forall a | a in r.assignments :: 0 < a.budget.maxWallSeconds <= WallShare(envelope, agents))
  {
    var envelope, agents := Budgets.Resolved(operator, template), AgentCount(stated);
    SharedAgents(stated, input.stages, envelope);
    ResolvingInside(EnvOf(input), input.stages, |input.stages|, InvocationShare(envelope, agents), WallShare(envelope, agents));
    assert input.stages[..|input.stages|] == input.stages;
  }

  /** Every worker resolution assigns may invoke at least once, and together they never exceed the operator's ceiling. */
  lemma {:induction false} InvocationsConserved(stated: seq<PlanStage>, input: Input, operator: Envelope, template: Option<Envelope>, r: Resolution)
    requires ResolvedUnder(stated, input, operator, template, r)
    ensures forall a | a in r.assignments :: a.budget.maxProviderInvocations >= 1
    ensures TotalInvocations(r.assignments) <= operator.maxProviderInvocations
  {
    var envelope, agents := Budgets.Resolved(operator, template), AgentCount(stated);
    ResolutionInside(stated, input, operator, template, r);
    ShareFits(envelope.maxProviderInvocations, agents);
    InvocationsBounded(r.assignments, InvocationShare(envelope, agents));
    Fewer(|r.assignments|, agents, InvocationShare(envelope, agents), envelope.maxProviderInvocations);
  }

  /** Every worker assigned has a second at least, and together they stay within the envelope. */
  ghost predicate WallHolds(r: Resolution, envelope: Envelope) {
    (forall a | a in r.assignments :: a.budget.maxWallSeconds >= 1) && TotalWall(r.assignments) <= envelope.maxWallSeconds
  }

  /**
    The same of wall seconds, where the envelope bounds them at all. It holds wherever there is
    a second for every worker stage; once every stage has its worker, exactly then: with fewer
    seconds no share is written, and positive bounds for all could not add up to the envelope.
   */
  lemma {:induction false} WallConserved(stated: seq<PlanStage>, input: Input, operator: Envelope, template: Option<Envelope>, r: Resolution)
    requires ResolvedUnder(stated, input, operator, template, r) && Budgets.Resolved(operator, template).maxWallSeconds > 0
    ensures Budgets.Resolved(operator, template).maxWallSeconds <= operator.maxWallSeconds
    ensures Budgets.Resolved(operator, template).maxWallSeconds >= AgentCount(stated) ==> WallHolds(r, Budgets.Resolved(operator, template))
    ensures r.blocked == [] ==>
              (WallHolds(r, Budgets.Resolved(operator, template)) <==> Budgets.Resolved(operator, template).maxWallSeconds >= AgentCount(stated))
  {
    var envelope, agents := Budgets.Resolved(operator, template), AgentCount(stated);
    ResolutionInside(stated, input, operator, template, r);
    ShareFits(envelope.maxWallSeconds, agents);
    if envelope.maxWallSeconds >= agents {
      WallBounded(r.assignments, WallShare(envelope, agents));
      Fewer(|r.assignments|, agents, WallShare(envelope, agents), envelope.maxWallSeconds);
    } else if forall a | a in r.assignments :: a.budget.maxWallSeconds >= 1 {
      WallAtLeastOnce(r.assignments);
    }
  }

  /**
    What is carried over is not cut to the ceiling: a one-worker plan resumed under another
    ceiling may invoke as often as the worker was once given, whatever the ceiling is now.
   */
  lemma {:induction false} CarriedOverStays(stated: seq<PlanStage>, input: Input, operator: Envelope, carried: Assignment)
    requires |stated| == 1 && stated[0].kind.AgentStage? && AgentCount(stated) == 1 && Affords(operator, None, 1)
    requires SharedOut(stated, input.stages, operator) && input.frozen == map[stated[0].id := carried]
    ensures ResolutionOf(input).Some? && ResolutionOf(input).value.blocked == []
    ensures TotalInvocations(ResolutionOf(input).value.assignments) == carried.budget.maxProviderInvocations
    ensures CarriedInside(EnvOf(input), input.stages) ==> carried.budget.maxProviderInvocations <= operator.maxProviderInvocations
  {
    var env := EnvOf(input);
    var first := Resolving(env, input.stages, 0);
    assert Resolving(env, input.stages, 1) == ResolveOne(env, input.stages[0], first.value);
    var assignments := ResolutionOf(input).value.assignments;
    assert assignments == [carried];
    assert assignments[..0] == [];
    ShareFits(operator.maxProviderInvocations, 1);
  }

  // ---------------------------------------------------------------- a second for two workers

  function Implementing(id: Id): PlanStage {
    PlanStage(id, AgentStage, Some(Implementer), DefaultExecution, None, [], [], None, Unstated, None, None, None, [], None, None, StageBudget(0, 0, 0))
  }

  const ONE_SECOND := Envelope(2, 1, 2, 1, None)

  const ABLE := Agent(0, None, None, OperatorTrusted, None, [CodeChange], [], true, false)

  /** Two workers sharing one second, and one agent to perform both. */
  ghost predicate TwoWorkers(stated: seq<PlanStage>, input: Input) {
    && |stated| == 2 && stated[0] == Implementing(0) && stated[1] == Implementing(1)
    && AgentCount(stated) == 2 && SharedOut(stated, input.stages, ONE_SECOND)
    && input.registry == Registry(map[], {}) && input.agents == [ABLE]
    && input.frozen == map[] && input.authorized == map[] && input.packs == map[0 := false, 1 := false]
  }

  lemma {:induction false} OnlyCandidate(input: Input)
    requires input.registry == Registry(map[], {}) && input.agents == [ABLE]
    ensures EnvOf(input).profiles == [DirectProfile(ABLE)] && EnvOf(input).agents == map[0 := ABLE]
  {
    assert Listing(input.registry.profiles.Keys) == [];
    assert InstalledIn(input.registry) == [];
    assert [ABLE][..0] == [];
    assert AgentIndex([ABLE]) == map[][0 := ABLE];
    assert Directs([], [ABLE]) == [DirectProfile(ABLE)];
    assert [] + [DirectProfile(ABLE)] == [DirectProfile(ABLE)];
    assert [DirectProfile(ABLE)][..0] == [];
    assert SortById([DirectProfile(ABLE)]) == [DirectProfile(ABLE)];
  }

  /** The one agent performs any worker that asks for nothing more. */
  lemma {:induction false} AbleFits(env: Env, stage: PlanStage, workers: map<Id, Assignment>)
    requires env.profiles == [DirectProfile(ABLE)] && env.agents == map[0 := ABLE] && stage.id in env.packs
    requires stage.(budget := StageBudget(0, 0, 0)) == Implementing(stage.id)
    ensures OutcomeOf(env, stage, workers).Fresh?
  {
    assert Ineligibility(stage, DirectProfile(ABLE), ABLE, workers, env.unknownWord) == {};
    assert Searched(env, stage, workers, 1) == Consider(env, stage, env.profiles[0], workers, Searched(env, stage, workers, 0));
  }

  lemma {:induction false} FreshDecided(env: Env, stage: PlanStage, p: Progress)
    requires stage.kind.AgentStage? && stage.id !in env.frozen && stage.id !in env.authorized && !MissingArtifact(env, stage)
    requires OutcomeOf(env, stage, p.workers).Fresh?
    ensures ResolveOne(env, stage, p).Some? && ResolveOne(env, stage, p).value.resolution.blocked == p.resolution.blocked
  {
  }

  /** One second for two workers: the plan is afforded and wholly resolved, and its wall bounds do not hold. */
  lemma {:induction false} OneSecondForTwo(stated: seq<PlanStage>, input: Input)
    requires TwoWorkers(stated, input)
    ensures ResolutionOf(input).Some? && ResolvedUnder(stated, input, ONE_SECOND, None, ResolutionOf(input).value)
    ensures ResolutionOf(input).value.blocked == [] && !WallHolds(ResolutionOf(input).value, ONE_SECOND)
  {
    var env := EnvOf(input);
    OnlyCandidate(input);
    var first := Resolving(env, input.stages, 0);
    AbleFits(env, input.stages[0], first.value.workers);
    FreshDecided(env, input.stages[0], first.value);
    var second := Resolving(env, input.stages, 1);
    assert second == ResolveOne(env, input.stages[0], first.value);
    AbleFits(env, input.stages[1], second.value.workers);
    FreshDecided(env, input.stages[1], second.value);
    assert Resolving(env, input.stages, 2) == ResolveOne(env, input.stages[1], second.value);
    WallConserved(stated, input, ONE_SECOND, None, ResolutionOf(input).value);
  }
}
