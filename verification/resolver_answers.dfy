/** Whom a stage is given and why, in terms of the profiles', the agents' and the assignments' own fields. */
module ResolverAnswers {
  import opened Ids
  import opened Vocabulary
  import opened Plans
  import opened Budgets
  import opened Resolver
  import opened ResolverLaws

  // ---------------------------------------------------------------- what independence compares

  /** A worker that would run this profile on this agent stands apart, in the dimension, from one already assigned. */
  ghost predicate StandsApart(dimension: Dimension, profile: Profile, agent: Agent, other: Assignment, unknownWord: Id) {
    match dimension
    case AgentProfileDimension => profile.id != other.profileId || profile.digest != other.profileDigest
    case ExecutionAgentDimension => NamesApart(Some(agent.id), Some(other.agentId), unknownWord)
    case ProviderKindDimension => NamesApart(agent.providerKind, other.providerKind, unknownWord)
    case VendorFamilyDimension => NamesApart(agent.vendorFamily, other.vendorFamily, unknownWord)
    case HumanDimension => false
    case UnknownDimension(_) => false
  }

  /** A named peer is without a worker, or has one this worker does not stand apart from. */
  ghost predicate TooClose(stage: PlanStage, profile: Profile, agent: Agent, workers: map<Id, Assignment>, unknownWord: Id) {
    match stage.independence
    case None => false
    case Some(i) => exists other :: other in i.differentFrom &&
                      (other in workers ==> !StandsApart(i.dimension, profile, agent, workers[other], unknownWord))
  }

  lemma ApartExactly(dimension: Dimension, profile: Profile, agent: Agent, other: Assignment, unknownWord: Id)
    ensures ProvenDifferent(ClassOf(dimension, profile, agent, unknownWord), AssignedClass(dimension, other, unknownWord), unknownWord)
       <==> StandsApart(dimension, profile, agent, other, unknownWord)
  {
  }

  lemma TooCloseExactly(stage: PlanStage, profile: Profile, agent: Agent, workers: map<Id, Assignment>, unknownWord: Id)
    ensures ViolatesIndependence(stage, profile, agent, workers, unknownWord) <==> TooClose(stage, profile, agent, workers, unknownWord)
  {
    if stage.independence.Some? {
      forall other | other in stage.independence.value.differentFrom && other in workers
        ensures ProvenDifferent(ClassOf(stage.independence.value.dimension, profile, agent, unknownWord),
                                AssignedClass(stage.independence.value.dimension, workers[other], unknownWord), unknownWord)
           <==> StandsApart(stage.independence.value.dimension, profile, agent, workers[other], unknownWord)
      {
        ApartExactly(stage.independence.value.dimension, profile, agent, workers[other], unknownWord);
      }
    }
  }

  // ---------------------------------------------------------------- the objections

  /** The words of trust that are at least as strong as the first. */
  ghost predicate AtLeastTrust(required: Trust, held: Trust) {
    match required
    case Protected => held == Protected
    case OperatorTrusted => held == Protected || held == OperatorTrusted
    case _ => true
  }

  lemma AtLeastExactly(required: Trust, held: Trust)
    ensures TrustStrength(required) <= TrustStrength(held) <==> AtLeastTrust(required, held)
  {
  }

  /** The profile claims nothing its agent does not have, and says where it comes from. */
  ghost predicate Honest(profile: Profile, agent: Agent) {
    && AtLeastTrust(profile.trust, agent.trustMode)
    && |profile.capabilities| > 0 && (forall c | c in profile.capabilities :: c in agent.capabilities)
    && (profile.source == OperatorConfig || profile.source == OperatorFile)
  }

  /** Nobody works for a stage on less than an operator's trust, unless stage or profile states a word that means nothing. */
  ghost predicate TrustedEnough(stage: PlanStage, profile: Profile, agent: Agent) {
    && AtLeastTrust(profile.trust, agent.trustMode) && AtLeastTrust(stage.trust, agent.trustMode)
    && (stage.trust == Unstated ==> AtLeastTrust(OperatorTrusted, agent.trustMode))
  }

  ghost predicate OwesVerdict(stage: PlanStage) {
    stage.kind == AgentStage && (stage.role == Some(Reviewer) || stage.role == Some(SecurityReviewer) || stage.role == Some(ReleaseReviewer))
  }

  /** Each objection to giving the stage to this profile on this agent. */
  ghost predicate Objects(kind: BlockKind, stage: PlanStage, profile: Profile, agent: Agent, workers: map<Id, Assignment>, unknownWord: Id) {
    match kind
    case NoEligibleProfile =>
      || !Honest(profile, agent) || !TrustedEnough(stage, profile, agent)
      || exists c :: c in stage.requiresCapabilities && c !in profile.capabilities
    case InvocationModeUnavailable =>
      Honest(profile, agent) && stage.invocationMode.Some? && stage.invocationMode.value !in agent.invocationModes
    case VerdictProtocolUnavailable => Honest(profile, agent) && OwesVerdict(stage) && !agent.structuredVerdicts
    case AgentUnavailable => Honest(profile, agent) && !agent.available
    case IndependenceShortage => Honest(profile, agent) && TooClose(stage, profile, agent, workers, unknownWord)
    case ArtifactNotInstalled => false
  }

  lemma HonestExactly(profile: Profile, agent: Agent)
    ensures Escalates(profile, agent) <==> !Honest(profile, agent)
  {
    AtLeastExactly(profile.trust, agent.trustMode);
  }

  lemma TrustedExactly(stage: PlanStage, profile: Profile, agent: Agent)
    requires AtLeastTrust(profile.trust, agent.trustMode)
    ensures TrustStrength(agent.trustMode) >= TrustStrength(EffectiveTrust(stage, profile)) <==> TrustedEnough(stage, profile, agent)
  {
  }

  /** The objections, each exactly when it holds. */
  lemma ObjectionsExactly(kind: BlockKind, stage: PlanStage, profile: Profile, agent: Agent, workers: map<Id, Assignment>, unknownWord: Id)
    ensures kind in Ineligibility(stage, profile, agent, workers, unknownWord) <==> Objects(kind, stage, profile, agent, workers, unknownWord)
  {
    HonestExactly(profile, agent);
    if Honest(profile, agent) {
      TrustedExactly(stage, profile, agent);
      TooCloseExactly(stage, profile, agent, workers, unknownWord);
    }
  }

  /** A worker suits a stage exactly when nothing objects. */
  ghost predicate Suits(stage: PlanStage, profile: Profile, agent: Agent, workers: map<Id, Assignment>, unknownWord: Id) {
    && Honest(profile, agent) && TrustedEnough(stage, profile, agent)
    && (forall c | c in stage.requiresCapabilities :: c in profile.capabilities)
    && (stage.invocationMode.Some? ==> stage.invocationMode.value in agent.invocationModes)
    && (OwesVerdict(stage) ==> agent.structuredVerdicts)
    && agent.available
    && !TooClose(stage, profile, agent, workers, unknownWord)
  }

  lemma SuitsExactly(env: Env, stage: PlanStage, profile: Profile, workers: map<Id, Assignment>)
    requires profile.executionAgent in env.agents
    ensures Eligible(env, stage, profile, workers) <==> Suits(stage, profile, env.agents[profile.executionAgent], workers, env.unknownWord)
  {
    var agent := env.agents[profile.executionAgent];
    var kinds := Ineligibility(stage, profile, agent, workers, env.unknownWord);
    forall kind ensures kind in kinds <==> Objects(kind, stage, profile, agent, workers, env.unknownWord) {
      ObjectionsExactly(kind, stage, profile, agent, workers, env.unknownWord);
    }
    if kinds != {} { var kind :| kind in kinds; }
    if !Suits(stage, profile, agent, workers, env.unknownWord) {
      assert Objects(NoEligibleProfile, stage, profile, agent, workers, env.unknownWord)
        || Objects(InvocationModeUnavailable, stage, profile, agent, workers, env.unknownWord)
        || Objects(VerdictProtocolUnavailable, stage, profile, agent, workers, env.unknownWord)
        || Objects(AgentUnavailable, stage, profile, agent, workers, env.unknownWord)
        || Objects(IndependenceShortage, stage, profile, agent, workers, env.unknownWord);
    }
  }

  // ---------------------------------------------------------------- the candidates

  /** An installed profile, or an agent as itself where no installed profile runs on it. */
  ghost predicate Candidate(registry: Registry, agents: seq<Agent>, p: Profile) {
    || (exists id :: id in registry.profiles && registry.profiles[id] == p)
    || exists agent ::
         && agent in agents && (forall id | id in registry.profiles :: registry.profiles[id].executionAgent != agent.id)
         && p.id == agent.id && p.executionAgent == agent.id && p.digest == OfAgent(agent) && p.version == 1
         && p.model == agent.model && p.capabilities == agent.capabilities && p.trust == agent.trustMode && p.source == OperatorConfig
         && p.contextPolicy == None && p.constraints == ProfileConstraints(None, None, None)
  }

  lemma {:induction false} SortedHas(profiles: seq<Profile>, p: Profile)
    ensures p in SortById(profiles) <==> p in profiles
  {
    if profiles != [] {
      var n := |profiles| - 1;
      SortedHas(profiles[..n], p);
      InsertIsThere(profiles[n], SortById(profiles[..n]), p);
      assert p in profiles <==> p in profiles[..n] || p == profiles[n];
    }
  }

  lemma {:induction false} InstalledHas(profiles: map<Id, Profile>, ids: seq<Id>, p: Profile)
    requires forall id | id in ids :: id in profiles
    ensures p in Installed(profiles, ids) <==> exists id :: id in ids && profiles[id] == p
  {
    if ids != [] {
      InstalledHas(profiles, ids[..|ids| - 1], p);
      assert forall id :: id in ids <==> id in ids[..|ids| - 1] || id == ids[|ids| - 1];
    }
  }

  lemma {:induction false} DirectsHave(installed: seq<Profile>, agents: seq<Agent>, p: Profile)
    ensures p in Directs(installed, agents) <==> exists agent :: agent in agents && !Specialized(installed, agent.id) && p == DirectProfile(agent)
  {
    if agents != [] {
      DirectsHave(installed, agents[..|agents| - 1], p);
      assert forall a :: a in agents <==> a in agents[..|agents| - 1] || a == agents[|agents| - 1];
    }
  }

  lemma {:induction false} InstalledInHas(registry: Registry, p: Profile)
    ensures p in InstalledIn(registry) <==> exists id :: id in registry.profiles && registry.profiles[id] == p
  {
    KeysListed(registry);
    ListingLists(registry.profiles.Keys);
    InstalledHas(registry.profiles, Listing(registry.profiles.Keys), p);
    forall id ensures id in Listing(registry.profiles.Keys) <==> id in registry.profiles {
      assert id in Listing(registry.profiles.Keys) <==> id in Elements(Listing(registry.profiles.Keys));
    }
  }

  /** The candidates are exactly the installed profiles and the agents nobody specialized. */
  lemma {:induction false} CandidatesExactly(registry: Registry, agents: seq<Agent>, p: Profile)
    ensures p in Candidates(registry, agents) <==> Candidate(registry, agents, p)
  {
    var installed := InstalledIn(registry);
    SortedHas(installed + Directs(installed, agents), p);
    InstalledInHas(registry, p);
    DirectsHave(installed, agents, p);
    forall agent: Agent
      ensures Specialized(installed, agent.id) <==> !(forall id | id in registry.profiles :: registry.profiles[id].executionAgent != agent.id)
    {
      forall q ensures q in installed <==> exists id :: id in registry.profiles && registry.profiles[id] == q { InstalledInHas(registry, q); }
    }
  }

  // ---------------------------------------------------------------- what an assignment says

  /** The assignment is the stage's, the profile's and the agent's own words, with the stronger trust and the narrower budget. */
  ghost predicate SaysOf(stage: PlanStage, profile: Profile, agent: Agent, a: Assignment) {
    && a.stageId == stage.id && a.role == stage.role && a.requiredCapabilities == stage.requiresCapabilities
    && a.invocationMode == stage.invocationMode
    && a.profileId == profile.id && a.profileDigest == profile.digest
    && a.agentId == agent.id && a.providerKind == agent.providerKind && a.vendorFamily == agent.vendorFamily && a.trustMode == agent.trustMode
    && (a.model == match profile.model case None => agent.model case Some(m) => Some(m))
    && (if !AtLeastTrust(profile.trust, stage.trust) then a.trust == profile.trust
        else if stage.trust == Unstated then a.trust == OperatorTrusted else a.trust == stage.trust)
    && (stage.independence.None? ==> a.independence == None)
    && (stage.independence.Some? ==>
          && a.independence.Some? && a.independence.value.dimension == stage.independence.value.dimension
          && a.independence.value.differentFrom == stage.independence.value.differentFrom)
  }

  lemma AssignedSays(env: Env, stage: PlanStage, pick: Pick, considered: seq<Evaluation>, includes: bool)
    ensures SaysOf(stage, pick.profile, pick.agent, Assigned(env, stage, pick, considered, includes))
  {
    AtLeastExactly(pick.profile.trust, stage.trust);
  }

  /** What the stage consumes, by stage, where its context selects upstream outputs at all. */
  ghost predicate Consumes(a: Assignment, includes: bool, outputs: seq<UpstreamOutput>) {
    && a.context.includesUpstream == includes
    && (!includes ==> a.context.upstream == [])
    && (includes ==>
          multiset(a.context.upstream) == multiset(outputs) && ByStage(a.context.upstream))
  }

  ghost predicate ByStage(outputs: seq<UpstreamOutput>) {
    forall i, j | 0 <= i < j < |outputs| :: outputs[i].stage <= outputs[j].stage
  }

  lemma {:induction false} InsertByStageAdds(x: UpstreamOutput, sorted: seq<UpstreamOutput>)
    ensures multiset(InsertByStage(x, sorted)) == multiset(sorted) + multiset{x}
  {
    if sorted != [] && sorted[|sorted| - 1].stage > x.stage {
      InsertByStageAdds(x, sorted[..|sorted| - 1]);
      assert sorted == sorted[..|sorted| - 1] + [sorted[|sorted| - 1]];
    }
  }

  lemma {:induction false} InsertByStageBelow(x: UpstreamOutput, sorted: seq<UpstreamOutput>, top: Id)
    requires x.stage <= top && forall i | 0 <= i < |sorted| :: sorted[i].stage <= top
    ensures forall i | 0 <= i < |InsertByStage(x, sorted)| :: InsertByStage(x, sorted)[i].stage <= top
  {
    if sorted != [] && sorted[|sorted| - 1].stage > x.stage { InsertByStageBelow(x, sorted[..|sorted| - 1], top); }
  }

  lemma {:induction false} InsertByStageKeeps(x: UpstreamOutput, sorted: seq<UpstreamOutput>)
    requires ByStage(sorted)
    ensures ByStage(InsertByStage(x, sorted))
  {
    if sorted != [] && sorted[|sorted| - 1].stage > x.stage {
      InsertByStageKeeps(x, sorted[..|sorted| - 1]);
      InsertByStageBelow(x, sorted[..|sorted| - 1], sorted[|sorted| - 1].stage);
    }
  }

  lemma {:induction false} SortedUpstreamIs(outputs: seq<UpstreamOutput>)
    ensures ByStage(SortedUpstream(outputs)) && multiset(SortedUpstream(outputs)) == multiset(outputs)
  {
    if outputs != [] {
      var n := |outputs| - 1;
      SortedUpstreamIs(outputs[..n]);
      InsertByStageKeeps(outputs[n], SortedUpstream(outputs[..n]));
      InsertByStageAdds(outputs[n], SortedUpstream(outputs[..n]));
      assert outputs == outputs[..n] + [outputs[n]];
    }
  }

  lemma {:induction false} AssignedConsumes(env: Env, stage: PlanStage, pick: Pick, considered: seq<Evaluation>, includes: bool)
    ensures Consumes(Assigned(env, stage, pick, considered, includes), includes, if stage.id in env.upstream then env.upstream[stage.id] else [])
  {
    SortedUpstreamIs(UpstreamFor(env, stage.id));
  }

  // ---------------------------------------------------------------- the answer to each stage

  /** The workers a stage is compared against when its turn comes: those carried over and those chosen so far. */
  ghost function WorkersBefore(input: Input, i: nat): map<Id, Assignment>
    requires i <= |input.stages| && Resolving(EnvOf(input), input.stages, i).Some?
  {
    Resolving(EnvOf(input), input.stages, i).value.workers
  }

  /** Every assignment answered so far is the worker of its stage. */
  ghost predicate AnswersAreWorkers(p: Progress) {
    forall a | a in p.resolution.assignments :: a.stageId in p.workers && p.workers[a.stageId] == a
  }

  lemma {:induction false} NewAnswer(env: Env, stages: seq<PlanStage>, n: nat)
    requires n < |stages| && DistinctStages(stages) && Keyed(env.frozen) && Keyed(env.authorized)
    requires Resolving(env, stages, n + 1).Some? && Resolving(env, stages, n).Some?
    requires AnswersAreWorkers(Resolving(env, stages, n).value)
    requires forall a | a in Resolving(env, stages, n).value.resolution.assignments :: a.stageId != stages[n].id
    ensures AnswersAreWorkers(Resolving(env, stages, n + 1).value)
  {
    var p, q := Resolving(env, stages, n).value, Resolving(env, stages, n + 1).value;
    assert forall a | a in q.resolution.assignments :: a in p.resolution.assignments || (a.stageId == stages[n].id && q.workers[a.stageId] == a);
  }

  lemma {:induction false} AnsweredEarlier(env: Env, stages: seq<PlanStage>, n: nat, a: Assignment)
    requires n <= |stages| && Keyed(env.frozen) && Keyed(env.authorized)
    requires Resolving(env, stages, n).Some? && a in Resolving(env, stages, n).value.resolution.assignments
    ensures exists j :: 0 <= j < n && stages[j].id == a.stageId
  {
    if n > 0 && a in Resolving(env, stages, n - 1).value.resolution.assignments {
      AnsweredEarlier(env, stages, n - 1, a);
    }
  }

  lemma {:induction false} AnswersHold(env: Env, stages: seq<PlanStage>, n: nat)
    requires n <= |stages| && DistinctStages(stages) && Keyed(env.frozen) && Keyed(env.authorized) && Resolving(env, stages, n).Some?
    ensures AnswersAreWorkers(Resolving(env, stages, n).value)
  {
    if n > 0 {
      AnswersHold(env, stages, n - 1);
      forall a | a in Resolving(env, stages, n - 1).value.resolution.assignments ensures a.stageId != stages[n - 1].id {
        AnsweredEarlier(env, stages, n - 1, a);
      }
      NewAnswer(env, stages, n - 1);
    }
  }

  /** A worker is carried over for a stage, or is what resolution answered for one. */
  ghost predicate FinalWorker(input: Input, r: Resolution, id: Id, w: Assignment) {
    (id in input.frozen && w == input.frozen[id]) || (w in r.assignments && w.stageId == id)
  }

  lemma {:induction false} WorkersAreFinal(env: Env, stages: seq<PlanStage>, n: nat, id: Id)
    requires n <= |stages| && Keyed(env.frozen) && Keyed(env.authorized) && Resolving(env, stages, n).Some?
    requires id in Resolving(env, stages, n).value.workers
    ensures var p := Resolving(env, stages, n).value;
            && p.workers[id].stageId == id
            && (p.workers[id] in p.resolution.assignments || (id in env.frozen && p.workers[id] == env.frozen[id]))
  {
    if n > 0 && (id in Resolving(env, stages, n - 1).value.workers) {
      WorkersAreFinal(env, stages, n - 1, id);
    }
  }

  lemma {:induction false} FinalWorkersExactly(input: Input, id: Id, w: Assignment)
    requires DistinctStages(input.stages) && Keyed(input.frozen) && Keyed(input.authorized) && ResolutionOf(input).Some?
    ensures FinalWorker(input, ResolutionOf(input).value, id, w) <==>
              id in WorkersBefore(input, |input.stages|) && WorkersBefore(input, |input.stages|)[id] == w
  {
    var env, n := EnvOf(input), |input.stages|;
    AnswersHold(env, input.stages, n);
    WorkersComeFrom(env, input.stages, n, id);
    if id in WorkersBefore(input, n) { WorkersAreFinal(env, input.stages, n, id); }
  }

  /** A stage whose worker is chosen now: nothing was carried over or approved for it. */
  ghost predicate ChosenNow(input: Input, i: nat) {
    i < |input.stages| && input.stages[i].kind == AgentStage && input.stages[i].id !in input.frozen && input.stages[i].id !in input.authorized
  }

  ghost predicate Resolvable(input: Input) {
    DistinctStages(input.stages) && Keyed(input.frozen) && Keyed(input.authorized) && ResolutionOf(input).Some?
  }

  lemma {:induction false} ChosenAtItsTurn(input: Input, i: nat, a: Assignment)
    requires Resolvable(input) && ChosenNow(input, i)
    requires a in ResolutionOf(input).value.assignments && a.stageId == input.stages[i].id
    ensures Resolving(EnvOf(input), input.stages, i).Some?
    ensures OutcomeOf(EnvOf(input), input.stages[i], WorkersBefore(input, i)) == Fresh(a)
    ensures a.stageId in WorkersBefore(input, |input.stages|) && WorkersBefore(input, |input.stages|)[a.stageId] == a
  {
    var env, stages := EnvOf(input), input.stages;
    AnswersHold(env, stages, |stages|);
    ErrorStays(env, stages, i, |stages|);
    ErrorStays(env, stages, i + 1, |stages|);
    SettledAtItsTurn(env, stages, i, |stages|);
    FreshWorkerIsNew(env, stages, i);
    WorkersStay(env, stages, i + 1, |stages|, stages[i].id);
  }

  /**
    Whatever order the stages are listed in: every stage the chosen worker must differ from
    has a worker in the end, and in the required dimension both are named and their names differ.
   */
  lemma {:induction false} IndependentWorkers(input: Input, i: nat, a: Assignment, other: Id)
    requires Resolvable(input) && ChosenNow(input, i)
    requires a in ResolutionOf(input).value.assignments && a.stageId == input.stages[i].id
    requires input.stages[i].independence.Some? && other in input.stages[i].independence.value.differentFrom
    ensures exists w :: FinalWorker(input, ResolutionOf(input).value, other, w)
    ensures forall w | FinalWorker(input, ResolutionOf(input).value, other, w) ::
              WorkersApart(input.stages[i].independence.value.dimension, a, w, input.unknownWord)
  {
    var env, stages := EnvOf(input), input.stages;
    var final := WorkersBefore(input, |stages|);
    ChosenAtItsTurn(input, i, a);
    InputKeeps(input);
    IndependenceHoldsAtTheEnd(env, stages, i);
    FinalWorkersExactly(input, other, final[other]);
    forall w | FinalWorker(input, ResolutionOf(input).value, other, w)
      ensures WorkersApart(stages[i].independence.value.dimension, a, w, input.unknownWord)
    {
      FinalWorkersExactly(input, other, w);
    }
  }

  /** A pinned stage takes the pinned profile. Otherwise the default agent's come first, and after that the least id. */
  ghost predicate NoWorse(profile: Profile, than: Profile, defaultAgent: Option<Id>) {
    if Some(profile.executionAgent) == defaultAgent then Some(than.executionAgent) == defaultAgent ==> profile.id <= than.id
    else Some(than.executionAgent) != defaultAgent && profile.id <= than.id
  }

  /** A candidate that suits the stage when its turn comes, run by an agent of the workforce. */
  ghost predicate MaySuit(input: Input, i: nat, profile: Profile)
    requires i < |input.stages| && Resolving(EnvOf(input), input.stages, i).Some?
  {
    && Candidate(input.registry, input.agents, profile)
    && (input.stages[i].profile == None || input.stages[i].profile == Some(profile.id))
    && profile.executionAgent in AgentIndex(input.agents)
    && Suits(input.stages[i], profile, AgentIndex(input.agents)[profile.executionAgent], WorkersBefore(input, i), input.unknownWord)
  }

  lemma {:induction false} MaySuitExactly(input: Input, i: nat, profile: Profile)
    requires i < |input.stages| && Resolving(EnvOf(input), input.stages, i).Some?
    ensures profile in EnvOf(input).profiles && Matches(input.stages[i], profile) && Eligible(EnvOf(input), input.stages[i], profile, WorkersBefore(input, i))
       <==> MaySuit(input, i, profile)
  {
    CandidatesExactly(input.registry, input.agents, profile);
    if profile.executionAgent in EnvOf(input).agents { SuitsExactly(EnvOf(input), input.stages[i], profile, WorkersBefore(input, i)); }
  }

  /**
    The worker chosen for a stage: a candidate that suits it, no worse than any other that
    does, described in its own words, with the narrower budget and the upstream outputs the
    stage's context selects.
   */
  lemma {:induction false} ChosenWorker(input: Input, i: nat, a: Assignment) returns (profile: Profile, agent: Agent)
    requires Resolvable(input) && ChosenNow(input, i)
    requires a in ResolutionOf(input).value.assignments && a.stageId == input.stages[i].id
    ensures Resolving(EnvOf(input), input.stages, i).Some? && MaySuit(input, i, profile)
    ensures agent in input.agents && agent.id == profile.executionAgent && agent == AgentIndex(input.agents)[profile.executionAgent]
    ensures SaysOf(input.stages[i], profile, agent, a)
    ensures a.budget == TightenedByProfile(input.stages[i].budget, profile.constraints)
    ensures input.stages[i].id in input.packs
    ensures Consumes(a, input.packs[input.stages[i].id], if input.stages[i].id in input.upstream then input.upstream[input.stages[i].id] else [])
    ensures input.stages[i].profile == None ==> forall q | MaySuit(input, i, q) :: NoWorse(profile, q, input.defaultAgent)
  {
    var env, stage := EnvOf(input), input.stages[i];
    ChosenAtItsTurn(input, i, a);
    InputKeeps(input);
    IndexKeepsIds(input.agents);
    var workers := WorkersBefore(input, i);
    var s := Searched(env, stage, workers, |env.profiles|);
    SelectedIsBest(env, stage, workers, |env.profiles|);
    profile, agent := s.selected.value.profile, s.selected.value.agent;
    assert profile in env.profiles;
    MaySuitExactly(input, i, profile);
    AssignedSays(env, stage, s.selected.value, s.considered, env.packs[stage.id]);
    AssignedConsumes(env, stage, s.selected.value, s.considered, env.packs[stage.id]);
    if stage.profile == None {
      forall q | MaySuit(input, i, q) ensures NoWorse(profile, q, input.defaultAgent) {
        MaySuitExactly(input, i, q);
        var k :| 0 <= k < |env.profiles| && env.profiles[k] == q;
      }
    }
  }

  // ---------------------------------------------------------------- the stages nobody can be given

  /** What stands against one candidate; an agent that is not configured is no worker at all. */
  ghost predicate StandsAgainst(input: Input, i: nat, profile: Profile, kind: BlockKind)
    requires i < |input.stages| && Resolving(EnvOf(input), input.stages, i).Some?
  {
    && Candidate(input.registry, input.agents, profile)
    && (input.stages[i].profile == None || input.stages[i].profile == Some(profile.id))
    && if profile.executionAgent in AgentIndex(input.agents) then
         Objects(kind, input.stages[i], profile, AgentIndex(input.agents)[profile.executionAgent], WorkersBefore(input, i), input.unknownWord)
       else kind == NoEligibleProfile
  }

  predicate Against(env: Env, stage: PlanStage, workers: map<Id, Assignment>, profile: Profile, kind: BlockKind) {
    && Matches(stage, profile)
    && if profile.executionAgent in env.agents
       then kind in Ineligibility(stage, profile, env.agents[profile.executionAgent], workers, env.unknownWord)
       else kind == NoEligibleProfile
  }

  lemma {:induction false} ObjectionsGathered(env: Env, stage: PlanStage, workers: map<Id, Assignment>, n: nat, kind: BlockKind)
    requires n <= |env.profiles|
    ensures kind in Searched(env, stage, workers, n).blockedBy <==> exists k :: 0 <= k < n && Against(env, stage, workers, env.profiles[k], kind)
  {
    if n > 0 { ObjectionsGathered(env, stage, workers, n - 1, kind); }
  }

  lemma {:induction false} ObjectedExactly(input: Input, i: nat, kind: BlockKind)
    requires i < |input.stages| && Resolving(EnvOf(input), input.stages, i).Some?
    ensures kind in Searched(EnvOf(input), input.stages[i], WorkersBefore(input, i), |EnvOf(input).profiles|).blockedBy
       <==> exists profile :: StandsAgainst(input, i, profile, kind)
  {
    var env, stage, workers := EnvOf(input), input.stages[i], WorkersBefore(input, i);
    ObjectionsGathered(env, stage, workers, |env.profiles|, kind);
    forall profile ensures StandsAgainst(input, i, profile, kind) <==> profile in env.profiles && Against(env, stage, workers, profile, kind) {
      CandidatesExactly(input.registry, input.agents, profile);
      if profile.executionAgent in env.agents {
        ObjectionsExactly(kind, stage, profile, env.agents[profile.executionAgent], workers, env.unknownWord);
      }
    }
    if profile :| StandsAgainst(input, i, profile, kind) {
      var k :| 0 <= k < |env.profiles| && env.profiles[k] == profile;
    }
  }

  /** The stage names a profile or a context policy nobody installed. */
  ghost predicate NotInstalled(input: Input, stage: PlanStage) {
    || (exists p :: stage.profile == Some(p) && p !in input.registry.profiles)
    || (exists c :: stage.contextPolicy == Some(c) && c !in input.registry.contexts)
  }

  lemma {:induction false} BlockedFrom(env: Env, stages: seq<PlanStage>, n: nat, b: Blocked)
    requires n <= |stages| && Resolving(env, stages, n).Some? && b in Resolving(env, stages, n).value.resolution.blocked
    ensures exists j :: 0 <= j < n && stages[j].id == b.stageId && BlockedAt(env, stages, j, b)
  {
    if b in Resolving(env, stages, n - 1).value.resolution.blocked {
      BlockedFrom(env, stages, n - 1, b);
    } else {
      assert stages[n - 1].id == b.stageId && BlockedAt(env, stages, n - 1, b);
    }
  }

  ghost predicate BlockedAt(env: Env, stages: seq<PlanStage>, j: nat, b: Blocked)
    requires j < |stages|
  {
    && Resolving(env, stages, j).Some?
    && stages[j].kind.AgentStage? && stages[j].id !in env.frozen && stages[j].id !in env.authorized
    && if MissingArtifact(env, stages[j]) then b == Blocked(stages[j].id, stages[j].role, ArtifactNotInstalled, [], false)
       else OutcomeOf(env, stages[j], Resolving(env, stages, j).value.workers) == Shortage(b)
  }

  // ---------------------------------------------------------------- the candidates on record

  /** The record of one candidate: who it is and whether it suited. */
  ghost predicate Recorded(input: Input, i: nat, e: Evaluation)
    requires i < |input.stages| && Resolving(EnvOf(input), input.stages, i).Some?
  {
    exists profile ::
      && Candidate(input.registry, input.agents, profile)
      && (input.stages[i].profile == None || input.stages[i].profile == Some(profile.id))
      && e.profile == profile.id && e.agent == profile.executionAgent && (e.eligible <==> MaySuit(input, i, profile))
  }

  lemma {:induction false} EvaluationsGathered(env: Env, stage: PlanStage, workers: map<Id, Assignment>, n: nat, e: Evaluation)
    requires n <= |env.profiles|
    ensures e in Searched(env, stage, workers, n).considered <==> (exists k ::
              && 0 <= k < n && Matches(stage, env.profiles[k])
              && e == Evaluation(env.profiles[k].id, env.profiles[k].executionAgent, Eligible(env, stage, env.profiles[k], workers)))
  {
    if n > 0 { EvaluationsGathered(env, stage, workers, n - 1, e); }
  }

  lemma {:induction false} RecordsExactly(input: Input, i: nat, e: Evaluation)
    requires i < |input.stages| && Resolving(EnvOf(input), input.stages, i).Some?
    ensures e in Searched(EnvOf(input), input.stages[i], WorkersBefore(input, i), |EnvOf(input).profiles|).considered <==> Recorded(input, i, e)
  {
    var env, stage, workers := EnvOf(input), input.stages[i], WorkersBefore(input, i);
    EvaluationsGathered(env, stage, workers, |env.profiles|, e);
    forall profile
      ensures profile in env.profiles <==> Candidate(input.registry, input.agents, profile)
      ensures profile in env.profiles && Matches(stage, profile) ==> (Eligible(env, stage, profile, workers) <==> MaySuit(input, i, profile))
    {
      CandidatesExactly(input.registry, input.agents, profile);
      MaySuitExactly(input, i, profile);
    }
    if Recorded(input, i, e) {
      var profile :| Candidate(input.registry, input.agents, profile)
        && (input.stages[i].profile == None || input.stages[i].profile == Some(profile.id))
        && e.profile == profile.id && e.agent == profile.executionAgent && (e.eligible <==> MaySuit(input, i, profile));
      var k :| 0 <= k < |env.profiles| && env.profiles[k] == profile;
    }
  }

  /** Chosen or blocked, a stage records every candidate it could have been given, and whether it suited. */
  lemma {:induction false} CandidatesRecorded(input: Input, i: nat, e: Evaluation)
    requires Resolvable(input) && ChosenNow(input, i) && !NotInstalled(input, input.stages[i])
    ensures Resolving(EnvOf(input), input.stages, i).Some?
    ensures forall a | a in ResolutionOf(input).value.assignments && a.stageId == input.stages[i].id :: e in a.considered <==> Recorded(input, i, e)
    ensures forall b | b in ResolutionOf(input).value.blocked && b.stageId == input.stages[i].id :: e in b.considered <==> Recorded(input, i, e)
  {
    var env, stages := EnvOf(input), input.stages;
    ErrorStays(env, stages, i, |stages|);
    RecordsExactly(input, i, e);
    forall a | a in ResolutionOf(input).value.assignments && a.stageId == stages[i].id ensures e in a.considered <==> Recorded(input, i, e) {
      ChosenAtItsTurn(input, i, a);
    }
    forall b | b in ResolutionOf(input).value.blocked && b.stageId == stages[i].id ensures e in b.considered <==> Recorded(input, i, e) {
      BlockedFrom(env, stages, |stages|, b);
      var j :| 0 <= j < |stages| && stages[j].id == b.stageId && BlockedAt(env, stages, j, b);
      assert i == j;
      assert MissingArtifact(env, stages[i]) <==> NotInstalled(input, stages[i]);
    }
  }

  /** The explanation given is the strongest objection there is to any candidate. */
  ghost predicate StrongestObjection(input: Input, i: nat, kind: BlockKind)
    requires i < |input.stages| && Resolving(EnvOf(input), input.stages, i).Some?
  {
    var objected := (k: BlockKind) => exists profile :: StandsAgainst(input, i, profile, k);
    match kind
    case IndependenceShortage => objected(IndependenceShortage)
    case InvocationModeUnavailable => objected(InvocationModeUnavailable) && !objected(IndependenceShortage)
    case VerdictProtocolUnavailable =>
      objected(VerdictProtocolUnavailable) && !objected(InvocationModeUnavailable) && !objected(IndependenceShortage)
    case AgentUnavailable =>
      objected(AgentUnavailable) && !objected(VerdictProtocolUnavailable) && !objected(InvocationModeUnavailable) && !objected(IndependenceShortage)
    case NoEligibleProfile =>
      !objected(AgentUnavailable) && !objected(VerdictProtocolUnavailable) && !objected(InvocationModeUnavailable) && !objected(IndependenceShortage)
    case ArtifactNotInstalled => false
  }

  /**
    A blocked stage: it was neither running nor approved, and either something it names is not
    installed, or no candidate suits it and the explanation is the strongest objection there is.
    A human may stand in only for want of independence, and only where the stage permits it.
   */
  lemma {:induction false} BlockedStage(input: Input, i: nat, b: Blocked)
    requires Resolvable(input) && i < |input.stages|
    requires b in ResolutionOf(input).value.blocked && b.stageId == input.stages[i].id
    ensures ChosenNow(input, i) && Resolving(EnvOf(input), input.stages, i).Some? && b.role == input.stages[i].role
    ensures b.kind == ArtifactNotInstalled <==> NotInstalled(input, input.stages[i])
    ensures b.kind != ArtifactNotInstalled ==>
              StrongestObjection(input, i, b.kind) && forall profile :: !MaySuit(input, i, profile)
    ensures b.humanSubstitutionPermitted <==>
              && b.kind == IndependenceShortage
              && input.stages[i].independence.Some? && input.stages[i].independence.value.humanSubstitutionPermitted
  {
    var env, stages := EnvOf(input), input.stages;
    BlockedFrom(env, stages, |stages|, b);
    var j :| 0 <= j < |stages| && stages[j].id == b.stageId && BlockedAt(env, stages, j, b);
    assert i == j;
    assert MissingArtifact(env, stages[i]) <==> NotInstalled(input, stages[i]);
    if !MissingArtifact(env, stages[i]) { ShortageMeans(input, i, b); }
  }

  lemma {:induction false} ShortageMeans(input: Input, i: nat, b: Blocked)
    requires i < |input.stages| && Resolving(EnvOf(input), input.stages, i).Some?
    requires OutcomeOf(EnvOf(input), input.stages[i], WorkersBefore(input, i)) == Shortage(b)
    ensures StrongestObjection(input, i, b.kind) && b.role == input.stages[i].role
    ensures forall profile :: !MaySuit(input, i, profile)
    ensures b.humanSubstitutionPermitted <==>
              && b.kind == IndependenceShortage
              && input.stages[i].independence.Some? && input.stages[i].independence.value.humanSubstitutionPermitted
  {
    var env, stage, workers := EnvOf(input), input.stages[i], WorkersBefore(input, i);
    InputKeeps(input);
    SelectedIsBest(env, stage, workers, |env.profiles|);
    forall kind ensures kind in Searched(env, stage, workers, |env.profiles|).blockedBy <==> exists profile :: StandsAgainst(input, i, profile, kind) {
      ObjectedExactly(input, i, kind);
    }
    forall profile ensures !MaySuit(input, i, profile) {
      MaySuitExactly(input, i, profile);
      if profile in env.profiles { var k :| 0 <= k < |env.profiles| && env.profiles[k] == profile; }
    }
  }

  // ---------------------------------------------------------------- what was carried over

  lemma {:induction false} AnswersGrow(env: Env, stages: seq<PlanStage>, n: nat, m: nat)
    requires n <= m <= |stages| && Resolving(env, stages, m).Some? && Resolving(env, stages, n).Some?
    ensures forall a | a in Resolving(env, stages, n).value.resolution.assignments :: a in Resolving(env, stages, m).value.resolution.assignments
    decreases m
  {
    if n < m { AnswersGrow(env, stages, n, m - 1); }
  }

  /** A running stage keeps its assignment as it is; an approved one keeps all but the upstream outputs, which are those there now. */
  lemma {:induction false} CarriedOver(input: Input, i: nat) returns (a: Assignment)
    requires Resolvable(input) && i < |input.stages| && input.stages[i].kind == AgentStage
    requires input.stages[i].id in input.frozen || input.stages[i].id in input.authorized
    ensures a in ResolutionOf(input).value.assignments && a.stageId == input.stages[i].id
    ensures input.stages[i].id in input.frozen ==> a == input.frozen[input.stages[i].id]
    ensures input.stages[i].id !in input.frozen ==>
              var approved := input.authorized[input.stages[i].id];
              && a == approved.(context := a.context)
              && Consumes(a, approved.context.includesUpstream, if input.stages[i].id in input.upstream then input.upstream[input.stages[i].id] else [])
  {
    var env, stages := EnvOf(input), input.stages;
    var id := stages[i].id;
    ErrorStays(env, stages, i, |stages|);
    ErrorStays(env, stages, i + 1, |stages|);
    a := if id in input.frozen then input.frozen[id] else RebindUpstream(input.authorized[id], UpstreamFor(env, id));
    assert Resolving(env, stages, i + 1) == ResolveOne(env, stages[i], Resolving(env, stages, i).value);
    AnswersGrow(env, stages, i + 1, |stages|);
    SortedUpstreamIs(UpstreamFor(env, id));
  }

  // ---------------------------------------------------------------- when resolution fails

  /** The candidate a search settles on. */
  ghost function Selected(input: Input, i: nat): Option<Profile>
    requires i < |input.stages| && Resolving(EnvOf(input), input.stages, i).Some?
  {
    var s := Searched(EnvOf(input), input.stages[i], WorkersBefore(input, i), |EnvOf(input).profiles|);
    if s.selected.None? then None else Some(s.selected.value.profile)
  }

  /** One candidate is settled on exactly when one suits, and none that suits is better. */
  lemma {:induction false} SelectedMeans(input: Input, i: nat)
    requires i < |input.stages| && Resolving(EnvOf(input), input.stages, i).Some?
    ensures Selected(input, i) == None ==> forall profile :: !MaySuit(input, i, profile)
    ensures Selected(input, i).Some? ==>
              && MaySuit(input, i, Selected(input, i).value)
              && (input.stages[i].profile == None ==> forall q | MaySuit(input, i, q) :: NoWorse(Selected(input, i).value, q, input.defaultAgent))
  {
    var env, stage, workers := EnvOf(input), input.stages[i], WorkersBefore(input, i);
    InputKeeps(input);
    SelectedIsBest(env, stage, workers, |env.profiles|);
    forall profile
      ensures profile in env.profiles && Matches(stage, profile) && Eligible(env, stage, profile, workers) <==> MaySuit(input, i, profile)
      ensures profile in env.profiles ==> exists k :: 0 <= k < |env.profiles| && env.profiles[k] == profile
    {
      MaySuitExactly(input, i, profile);
    }
    if Selected(input, i).Some? { assert Selected(input, i).value in env.profiles; }
  }

  /** Somebody is settled on, but the profile's own context policy is not installed, or no context compiles for the stage. */
  ghost predicate ContextFails(input: Input, i: nat)
    requires i < |input.stages| && Resolving(EnvOf(input), input.stages, i).Some?
  {
    && ChosenNow(input, i) && !NotInstalled(input, input.stages[i]) && Selected(input, i).Some?
    && (|| (exists c :: c !in input.registry.contexts && Selected(input, i).value.contextPolicy == Some(c) && input.stages[i].contextPolicy == None)
        || input.stages[i].id !in input.packs)
  }

  lemma {:induction false} FailsAtExactly(input: Input, i: nat)
    requires i < |input.stages| && Resolving(EnvOf(input), input.stages, i).Some?
    ensures Resolving(EnvOf(input), input.stages, i + 1) == None <==> ContextFails(input, i)
  {
    assert MissingArtifact(EnvOf(input), input.stages[i]) <==> NotInstalled(input, input.stages[i]);
  }

  lemma {:induction false} FirstFailure(env: Env, stages: seq<PlanStage>, n: nat) returns (i: nat)
    requires n <= |stages| && Resolving(env, stages, n).None?
    ensures i < n && Resolving(env, stages, i).Some? && Resolving(env, stages, i + 1).None?
  {
    if Resolving(env, stages, n - 1).Some? { i := n - 1; } else { i := FirstFailure(env, stages, n - 1); }
  }

  /** Resolution as a whole fails exactly when, at some stage's turn, the worker settled on has no context to work in. */
  lemma {:induction false} FailsExactly(input: Input)
    ensures ResolutionOf(input).None? <==>
              exists i :: 0 <= i < |input.stages| && Resolving(EnvOf(input), input.stages, i).Some? && ContextFails(input, i)
  {
    var env, stages := EnvOf(input), input.stages;
    if ResolutionOf(input).None? {
      var i := FirstFailure(env, stages, |stages|);
      FailsAtExactly(input, i);
    }
    if i :| 0 <= i < |stages| && Resolving(env, stages, i).Some? && ContextFails(input, i) {
      FailsAtExactly(input, i);
      ErrorStays(env, stages, i + 1, |stages|);
    }
  }

  // ---------------------------------------------------------------- in which order

  lemma {:induction false} InsertByIdBelow(p: Profile, s: seq<Profile>, top: Id)
    requires p.id <= top && forall i | 0 <= i < |s| :: s[i].id <= top
    ensures forall i | 0 <= i < |InsertById(p, s)| :: InsertById(p, s)[i].id <= top
  {
    if s != [] && s[|s| - 1].id > p.id { InsertByIdBelow(p, s[..|s| - 1], top); }
  }

  ghost predicate ById(s: seq<Profile>) {
    forall i, j | 0 <= i < j < |s| :: s[i].id <= s[j].id
  }

  lemma {:induction false} InsertByIdKeeps(p: Profile, s: seq<Profile>)
    requires ById(s)
    ensures ById(InsertById(p, s))
  {
    if s != [] && s[|s| - 1].id > p.id {
      InsertByIdKeeps(p, s[..|s| - 1]);
      InsertByIdBelow(p, s[..|s| - 1], s[|s| - 1].id);
    }
  }

  lemma {:induction false} SortedById(profiles: seq<Profile>)
    ensures ById(SortById(profiles))
  {
    if profiles != [] {
      SortedById(profiles[..|profiles| - 1]);
      InsertByIdKeeps(profiles[|profiles| - 1], SortById(profiles[..|profiles| - 1]));
    }
  }

  ghost predicate EvaluatedById(considered: seq<Evaluation>) {
    forall i, j | 0 <= i < j < |considered| :: considered[i].profile <= considered[j].profile
  }

  /** Every record is of a candidate no later than the last. */
  ghost predicate EvaluatedUpTo(considered: seq<Evaluation>, last: Id) {
    forall i | 0 <= i < |considered| :: considered[i].profile <= last
  }

  lemma ConsiderAppends(env: Env, stage: PlanStage, profile: Profile, workers: map<Id, Assignment>, s: Search)
    ensures var r := Consider(env, stage, profile, workers, s).considered;
            || r == s.considered
            || (|r| == |s.considered| + 1 && r[..|s.considered|] == s.considered && r[|s.considered|].profile == profile.id)
  {
  }

  lemma AppendedById(before: seq<Evaluation>, after: seq<Evaluation>, last: Id)
    requires EvaluatedById(before) && EvaluatedUpTo(before, last)
    requires after == before || (|after| == |before| + 1 && after[..|before|] == before && after[|before|].profile == last)
    ensures EvaluatedById(after) && EvaluatedUpTo(after, last)
  {
    assert forall i | 0 <= i < |before| && |before| <= |after| :: after[..|before|][i] == after[i];
  }

  lemma {:induction false} SearchedById(env: Env, stage: PlanStage, workers: map<Id, Assignment>, n: nat)
    requires n <= |env.profiles| && ById(env.profiles)
    ensures EvaluatedById(Searched(env, stage, workers, n).considered)
    ensures n > 0 ==> EvaluatedUpTo(Searched(env, stage, workers, n).considered, env.profiles[n - 1].id)
  {
    if n > 0 {
      var before := Searched(env, stage, workers, n - 1);
      SearchedById(env, stage, workers, n - 1);
      ConsiderAppends(env, stage, env.profiles[n - 1], workers, before);
      AppendedById(before.considered, Searched(env, stage, workers, n).considered, env.profiles[n - 1].id);
    }
  }

  /** The stage of an earlier answer stands earlier in the plan. */
  ghost predicate InPlanOrder(stages: seq<PlanStage>, ids: seq<Id>) {
    forall i, j, s, t | 0 <= i < j < |ids| && 0 <= s < |stages| && 0 <= t < |stages| && stages[s].id == ids[i] && stages[t].id == ids[j] :: s < t
  }

  lemma {:induction false} OneMoreInOrder(stages: seq<PlanStage>, ids: seq<Id>, n: nat)
    requires DistinctStages(stages) && n < |stages| && InPlanOrder(stages, ids)
    requires forall i | 0 <= i < |ids| :: exists k :: 0 <= k < n && stages[k].id == ids[i]
    ensures InPlanOrder(stages, ids + [stages[n].id])
  {
  }

  lemma {:induction false} BlockedEarlier(env: Env, stages: seq<PlanStage>, n: nat)
    requires n <= |stages| && Resolving(env, stages, n).Some?
    ensures forall i | 0 <= i < |Resolving(env, stages, n).value.resolution.blocked| ::
              exists k :: 0 <= k < n && stages[k].id == BlockedIds(Resolving(env, stages, n).value.resolution.blocked)[i]
  {
    forall i | 0 <= i < |Resolving(env, stages, n).value.resolution.blocked|
      ensures exists k :: 0 <= k < n && stages[k].id == BlockedIds(Resolving(env, stages, n).value.resolution.blocked)[i]
    {
      BlockedFrom(env, stages, n, Resolving(env, stages, n).value.resolution.blocked[i]);
    }
  }

  lemma {:induction false} AssignedEarlier(env: Env, stages: seq<PlanStage>, n: nat)
    requires n <= |stages| && Keyed(env.frozen) && Keyed(env.authorized) && Resolving(env, stages, n).Some?
    ensures forall i | 0 <= i < |Resolving(env, stages, n).value.resolution.assignments| ::
              exists k :: 0 <= k < n && stages[k].id == AssignedIds(Resolving(env, stages, n).value.resolution.assignments)[i]
  {
    forall i | 0 <= i < |Resolving(env, stages, n).value.resolution.assignments|
      ensures exists k :: 0 <= k < n && stages[k].id == AssignedIds(Resolving(env, stages, n).value.resolution.assignments)[i]
    {
      AnsweredEarlier(env, stages, n, Resolving(env, stages, n).value.resolution.assignments[i]);
    }
  }

  ghost predicate BothInOrder(stages: seq<PlanStage>, r: Resolution) {
    InPlanOrder(stages, AssignedIds(r.assignments)) && InPlanOrder(stages, BlockedIds(r.blocked))
  }

  lemma {:induction false} NextInOrder(env: Env, stages: seq<PlanStage>, n: nat, p: Progress)
    requires n < |stages| && DistinctStages(stages) && Keyed(env.frozen) && Keyed(env.authorized)
    requires Resolving(env, stages, n) == Some(p) && ResolveOne(env, stages[n], p).Some? && BothInOrder(stages, p.resolution)
    ensures BothInOrder(stages, ResolveOne(env, stages[n], p).value.resolution)
  {
    AssignedEarlier(env, stages, n);
    BlockedEarlier(env, stages, n);
    OneMoreInOrder(stages, AssignedIds(p.resolution.assignments), n);
    OneMoreInOrder(stages, BlockedIds(p.resolution.blocked), n);
    OneAnswerListed(env, stages[n], p);
  }

  lemma {:induction false} ResolvingInOrder(env: Env, stages: seq<PlanStage>, n: nat)
    requires n <= |stages| && DistinctStages(stages) && Keyed(env.frozen) && Keyed(env.authorized) && Resolving(env, stages, n).Some?
    ensures BothInOrder(stages, Resolving(env, stages, n).value.resolution)
  {
    if n > 0 {
      ResolvingInOrder(env, stages, n - 1);
      NextInOrder(env, stages, n - 1, Resolving(env, stages, n - 1).value);
    }
  }

  lemma {:induction false} BlockedById(input: Input, b: Blocked)
    requires Resolvable(input) && ById(EnvOf(input).profiles) && b in ResolutionOf(input).value.blocked
    ensures EvaluatedById(b.considered)
  {
    var env, stages := EnvOf(input), input.stages;
    BlockedFrom(env, stages, |stages|, b);
    var j :| 0 <= j < |stages| && stages[j].id == b.stageId && BlockedAt(env, stages, j, b);
    SearchedById(env, stages[j], Resolving(env, stages, j).value.workers, |env.profiles|);
  }

  lemma {:induction false} ChosenById(input: Input, i: nat, a: Assignment)
    requires Resolvable(input) && ById(EnvOf(input).profiles) && ChosenNow(input, i)
    requires a in ResolutionOf(input).value.assignments && a.stageId == input.stages[i].id
    ensures EvaluatedById(a.considered)
  {
    ChosenAtItsTurn(input, i, a);
    SearchedById(EnvOf(input), input.stages[i], WorkersBefore(input, i), |EnvOf(input).profiles|);
  }

  /** Answers come in the order of the plan, and each stage records its candidates by profile id. */
  lemma {:induction false} AnswersInOrder(input: Input)
    requires Resolvable(input)
    ensures InPlanOrder(input.stages, AssignedIds(ResolutionOf(input).value.assignments))
    ensures InPlanOrder(input.stages, BlockedIds(ResolutionOf(input).value.blocked))
    ensures forall i: nat, a | ChosenNow(input, i) && a in ResolutionOf(input).value.assignments && a.stageId == input.stages[i].id :: EvaluatedById(a.considered)
    ensures forall b | b in ResolutionOf(input).value.blocked :: EvaluatedById(b.considered)
  {
    ResolvingInOrder(EnvOf(input), input.stages, |input.stages|);
    SortedById(InstalledIn(input.registry) + Directs(InstalledIn(input.registry), input.agents));
    forall i: nat, a | ChosenNow(input, i) && a in ResolutionOf(input).value.assignments && a.stageId == input.stages[i].id
      ensures EvaluatedById(a.considered)
    {
      ChosenById(input, i, a);
    }
    forall b | b in ResolutionOf(input).value.blocked ensures EvaluatedById(b.considered) { BlockedById(input, b); }
  }

  // ---------------------------------------------------------------- a pinned profile

  /** The first candidate of the list that is eligible. */
  ghost predicate FirstEligible(env: Env, stage: PlanStage, workers: map<Id, Assignment>, n: nat, k: nat)
    requires n <= |env.profiles|
  {
    && k < n && Matches(stage, env.profiles[k]) && Eligible(env, stage, env.profiles[k], workers)
    && forall j | 0 <= j < k :: !(Matches(stage, env.profiles[j]) && Eligible(env, stage, env.profiles[j], workers))
  }

  lemma {:induction false} PinnedTakesFirst(env: Env, stage: PlanStage, workers: map<Id, Assignment>, n: nat) returns (k: nat)
    requires n <= |env.profiles| && stage.profile.Some? && Searched(env, stage, workers, n).selected.Some?
    ensures FirstEligible(env, stage, workers, n, k) && Searched(env, stage, workers, n).selected.value.profile == env.profiles[k]
  {
    if Searched(env, stage, workers, n - 1).selected.Some? {
      k := PinnedTakesFirst(env, stage, workers, n - 1);
    } else {
      k := n - 1;
      NoneBefore(env, stage, workers, n - 1);
    }
  }

  lemma {:induction false} NoneBefore(env: Env, stage: PlanStage, workers: map<Id, Assignment>, n: nat)
    requires n <= |env.profiles| && Searched(env, stage, workers, n).selected.None?
    ensures forall j | 0 <= j < n :: !(Matches(stage, env.profiles[j]) && Eligible(env, stage, env.profiles[j], workers))
  {
    if n > 0 { NoneBefore(env, stage, workers, n - 1); }
  }

  /** A stage that names a profile is given the installed one of that name wherever it suits, and an agent as itself only where none does. */
  lemma {:induction false} PinnedWorker(input: Input, i: nat, a: Assignment, id: Id)
    requires Resolvable(input) && ChosenNow(input, i) && ValidRegistry(input.registry) && DistinctAgents(input.agents)
    requires a in ResolutionOf(input).value.assignments && a.stageId == input.stages[i].id && input.stages[i].profile.Some?
    ensures Resolving(EnvOf(input), input.stages, i).Some? && Some(a.profileId) == input.stages[i].profile
    ensures id in input.registry.profiles && MaySuit(input, i, input.registry.profiles[id]) ==> a.profileDigest == input.registry.profiles[id].digest
  {
    var env, stage := EnvOf(input), input.stages[i];
    ChosenAtItsTurn(input, i, a);
    var workers := WorkersBefore(input, i);
    var k := PinnedTakesFirst(env, stage, workers, |env.profiles|);
    if id in input.registry.profiles && MaySuit(input, i, input.registry.profiles[id]) {
      var q := input.registry.profiles[id];
      MaySuitExactly(input, i, q);
      var m :| 0 <= m < |env.profiles| && env.profiles[m] == q;
      CandidatesSeparated(input.registry, input.agents);
      SortRanks(InstalledIn(input.registry) + Directs(InstalledIn(input.registry), input.agents));
      assert k <= m;
      assert k < m ==> Before(env.profiles[k], env.profiles[m]);
    }
  }
}
