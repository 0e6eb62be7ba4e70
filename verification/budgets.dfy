/** Budget arithmetic: tightening the operator's ceiling and sharing it among worker stages. */
module Budgets {
  import opened Ids
  import opened Plans

  /** Bounds of zero or less are absent, except the cost, whose absence is its own value. */
  datatype Envelope = Envelope(
    maxChildRuns: int,
    maxConcurrency: int,
    maxProviderInvocations: int,
    maxWallSeconds: int,
    maxCostMicros: Option<int>)

  function MinPositive(ceiling: int, proposal: int): int {
    if 0 < proposal < ceiling then proposal else ceiling
  }

  /** `tighten`: bound by bound the lesser one, where the proposal has one; a cost bound appears only where there was one. */
  function Tighten(ceiling: Envelope, proposal: Envelope): Envelope {
    Envelope(
      MinPositive(ceiling.maxChildRuns, proposal.maxChildRuns),
      MinPositive(ceiling.maxConcurrency, proposal.maxConcurrency),
      MinPositive(ceiling.maxProviderInvocations, proposal.maxProviderInvocations),
      MinPositive(ceiling.maxWallSeconds, proposal.maxWallSeconds),
      if proposal.maxCostMicros.None? || ceiling.maxCostMicros.None? then ceiling.maxCostMicros
      else if proposal.maxCostMicros.value < ceiling.maxCostMicros.value then proposal.maxCostMicros
      else ceiling.maxCostMicros)
  }

  predicate Within(envelope: Envelope, ceiling: Envelope) {
    && envelope.maxChildRuns <= ceiling.maxChildRuns
    && envelope.maxConcurrency <= ceiling.maxConcurrency
    && envelope.maxProviderInvocations <= ceiling.maxProviderInvocations
    && envelope.maxWallSeconds <= ceiling.maxWallSeconds
    && envelope.maxCostMicros.Some? == ceiling.maxCostMicros.Some?
    && (ceiling.maxCostMicros.Some? ==> envelope.maxCostMicros.value <= ceiling.maxCostMicros.value)
  }

  function AgentCount(stages: seq<PlanStage>): nat {
    if stages == [] then 0
    else AgentCount(stages[..|stages| - 1]) + if stages[|stages| - 1].kind.AgentStage? then 1 else 0
  }

  method CountAgents(stages: seq<PlanStage>) returns (agents: int)
    ensures agents == AgentCount(stages)
  {
    agents := 0;
    for i := 0 to |stages|
      invariant agents == AgentCount(stages[..i])
    {
      assert stages[..i + 1][..i] == stages[..i];
      if stages[i].kind.AgentStage? { agents := agents + 1; }
    }
    assert stages[..|stages|] == stages;
  }

  /** Whether an operator ceiling, tightened by a template's request, can hold the plan. */
  predicate Affords(operator: Envelope, template: Option<Envelope>, agents: int) {
    && operator.maxChildRuns > 0 && operator.maxConcurrency > 0 && operator.maxProviderInvocations > 0
    && agents <= Resolved(operator, template).maxChildRuns
    && agents <= Resolved(operator, template).maxProviderInvocations
  }

  function Resolved(operator: Envelope, template: Option<Envelope>): Envelope {
    if template.Some? then Tighten(operator, template.value) else operator
  }

  /** `resolveEnvelope`: refused exactly when the tightened ceiling cannot hold the plan, and never wider than the operator's. */
  method ResolveEnvelope(operator: Envelope, template: Option<Envelope>, stages: seq<PlanStage>) returns (r: Option<Envelope>)
    ensures r.Some? <==> Affords(operator, template, AgentCount(stages))
    ensures r.Some? ==> r.value == Resolved(operator, template) && Within(r.value, operator)
    ensures r.Some? ==> r.value.maxChildRuns > 0 && r.value.maxConcurrency > 0 && r.value.maxProviderInvocations > 0
    ensures r.Some? ==> AgentCount(stages) <= r.value.maxChildRuns && AgentCount(stages) <= r.value.maxProviderInvocations
  {
    var envelope := operator;
    if envelope.maxChildRuns <= 0 || envelope.maxConcurrency <= 0 || envelope.maxProviderInvocations <= 0 {
      return None;
    }
    if template.Some? {
      envelope := Tighten(envelope, template.value);
    }
    var agents := CountAgents(stages);
    if agents > envelope.maxChildRuns { return None; }
    if envelope.maxProviderInvocations < agents { return None; }
    return Some(envelope);
  }

  /** A stage's share: its own bound where it states one within the share, else the share. */
  function Capped(own: int, share: int): int {
    if own <= 0 || own > share then share else own
  }

  function Shared(stage: PlanStage, invocations: int, wall: int): PlanStage {
    if !stage.kind.AgentStage? then stage
    else
      stage.(budget := stage.budget.(
        maxProviderInvocations := Capped(stage.budget.maxProviderInvocations, invocations),
        maxWallSeconds := if wall > 0 then Capped(stage.budget.maxWallSeconds, wall) else stage.budget.maxWallSeconds))
  }

  /** The two shares of an envelope among `agents` stages. */
  function InvocationShare(envelope: Envelope, agents: int): int
    requires agents > 0
  {
    if envelope.maxProviderInvocations / agents < 1 then 1 else envelope.maxProviderInvocations / agents
  }

  function WallShare(envelope: Envelope, agents: int): int
    requires agents > 0
  {
    if envelope.maxWallSeconds > 0 then envelope.maxWallSeconds / agents else 0
  }

  /** `shareBudget`, rewriting the stages in place. */
  method ShareBudget(stages: array<PlanStage>, envelope: Envelope)
    modifies stages
    ensures AgentCount(old(stages[..])) == 0 ==> stages[..] == old(stages[..])
    ensures var agents := AgentCount(old(stages[..]));
            agents > 0 ==> forall i | 0 <= i < stages.Length ::
              stages[i] == Shared(old(stages[i]), InvocationShare(envelope, agents), WallShare(envelope, agents))
  {
    var agents := CountAgents(stages[..]);
    if agents == 0 { return; }
    var invocations := envelope.maxProviderInvocations / agents;
    if invocations < 1 { invocations := 1; }
    var wall := 0;
    if envelope.maxWallSeconds > 0 { wall := envelope.maxWallSeconds / agents; }
    for i := 0 to stages.Length
      invariant forall k | 0 <= k < i :: stages[k] == Shared(old(stages[k]), invocations, wall)
      invariant forall k | i <= k < stages.Length :: stages[k] == old(stages[k])
    {
      var stage := stages[i];
      if !stage.kind.AgentStage? { continue; }
      if stage.budget.maxProviderInvocations <= 0 || stage.budget.maxProviderInvocations > invocations {
        stage := stage.(budget := stage.budget.(maxProviderInvocations := invocations));
      }
      if wall > 0 && (stage.budget.maxWallSeconds <= 0 || stage.budget.maxWallSeconds > wall) {
        stage := stage.(budget := stage.budget.(maxWallSeconds := wall));
      }
      stages[i] := stage;
    }
  }

  // ---------------------------------------------------------------- what a profile narrows

  datatype ProfileConstraints = ProfileConstraints(
    maxWallSeconds: Option<int>, maxExecutionAttempts: Option<int>, maxProviderInvocations: Option<int>)

  function Narrowed(own: int, limit: Option<int>): int {
    if limit.Some? && limit.value > 0 && (own <= 0 || limit.value < own) then limit.value else own
  }

  /** `tightenedByProfile`: only ever narrower, and a retry bound is introduced only inside the total. */
  function TightenedByProfile(budget: StageBudget, constraints: ProfileConstraints): (r: StageBudget)
    ensures budget.maxProviderInvocations > 0 ==> 0 < r.maxProviderInvocations <= budget.maxProviderInvocations
    ensures budget.maxWallSeconds > 0 ==> 0 < r.maxWallSeconds <= budget.maxWallSeconds
    ensures budget.maxExecutionAttempts > 0 ==> 0 < r.maxExecutionAttempts <= budget.maxExecutionAttempts
    ensures budget.maxExecutionAttempts <= 0 && r.maxProviderInvocations > 0 ==> r.maxExecutionAttempts <= r.maxProviderInvocations
  {
    var wall := Narrowed(budget.maxWallSeconds, constraints.maxWallSeconds);
    var total := Narrowed(budget.maxProviderInvocations, constraints.maxProviderInvocations);
    var attempts :=
      if constraints.maxExecutionAttempts.None? || constraints.maxExecutionAttempts.value <= 0 then budget.maxExecutionAttempts
      else if budget.maxExecutionAttempts > 0 then
        if constraints.maxExecutionAttempts.value < budget.maxExecutionAttempts
        then constraints.maxExecutionAttempts.value else budget.maxExecutionAttempts
      else if total <= 0 || constraints.maxExecutionAttempts.value <= total then constraints.maxExecutionAttempts.value
      else budget.maxExecutionAttempts;
    StageBudget(attempts, total, wall)
  }

  // ---------------------------------------------------------------- conservation

  lemma ShareFits(total: int, parts: int)
    requires parts > 0 && total >= 0
    ensures parts * (total / parts) <= total
    ensures total >= parts ==> total / parts >= 1
    ensures total < parts ==> total / parts == 0
  {
  }

  /** The stages `shareBudget` leaves of those it is given. */
  ghost predicate SharedOut(stated: seq<PlanStage>, stages: seq<PlanStage>, envelope: Envelope)
    requires AgentCount(stated) > 0
  {
    && |stages| == |stated|
    && forall i | 0 <= i < |stated| ::
         stages[i] == Shared(stated[i], InvocationShare(envelope, AgentCount(stated)), WallShare(envelope, AgentCount(stated)))
  }

  /** One budget inside another: every positive bound stays positive and is not exceeded. */
  predicate Inside(budget: StageBudget, outer: StageBudget) {
    && (outer.maxProviderInvocations > 0 ==> 0 < budget.maxProviderInvocations <= outer.maxProviderInvocations)
    && (outer.maxWallSeconds > 0 ==> 0 < budget.maxWallSeconds <= outer.maxWallSeconds)
  }

  lemma {:induction false} SharedAgents(stated: seq<PlanStage>, stages: seq<PlanStage>, envelope: Envelope)
    requires AgentCount(stated) > 0 && SharedOut(stated, stages, envelope)
    ensures AgentCount(stages) == AgentCount(stated)
    ensures forall i | 0 <= i < |stages| && stages[i].kind.AgentStage? ::
              0 < stages[i].budget.maxProviderInvocations <= InvocationShare(envelope, AgentCount(stated))
    ensures WallShare(envelope, AgentCount(stated)) > 0 ==> forall i | 0 <= i < |stages| && stages[i].kind.AgentStage? ::
              0 < stages[i].budget.maxWallSeconds <= WallShare(envelope, AgentCount(stated))
  {
    SameAgentCount(stages, stated);
  }

  lemma {:induction false} SameAgentCount(a: seq<PlanStage>, b: seq<PlanStage>)
    requires |a| == |b| && forall i | 0 <= i < |a| :: a[i].kind == b[i].kind
    ensures AgentCount(a) == AgentCount(b)
  {
    if a != [] { SameAgentCount(a[..|a| - 1], b[..|b| - 1]); }
  }
}
