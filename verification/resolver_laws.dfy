/** What resolution guarantees of a whole plan: every stage answered once, independence that holds at the end, one choice. */
module ResolverLaws {
  import opened Ids
  import opened Vocabulary
  import opened Plans
  import opened Budgets
  import opened Resolver

  // ---------------------------------------------------------------- every agent stage once

  /** The agent stages among the first `n`, as often as they are listed. */
  function AgentStages(stages: seq<PlanStage>, n: nat): multiset<Id>
    requires n <= |stages|
  {
    if n == 0 then multiset{}
    else AgentStages(stages, n - 1) + if stages[n - 1].kind.AgentStage? then multiset{stages[n - 1].id} else multiset{}
  }

  function AssignedIds(assignments: seq<Assignment>): seq<Id> {
    seq(|assignments|, i requires 0 <= i < |assignments| => assignments[i].stageId)
  }

  function BlockedIds(blocked: seq<Blocked>): seq<Id> {
    seq(|blocked|, i requires 0 <= i < |blocked| => blocked[i].stageId)
  }

  /** The stages a resolution has an answer for. */
  function Answered(r: Resolution): multiset<Id> {
    multiset(AssignedIds(r.assignments)) + multiset(BlockedIds(r.blocked))
  }

  /** Frozen and authorized assignments are kept under the stage they are for. */
  ghost predicate Keyed(m: map<Id, Assignment>) {
    forall id | id in m :: m[id].stageId == id
  }

  /** An agent stage is answered once, at the end of one of the two lists; any other stage is not. */
  lemma OneAnswerListed(env: Env, stage: PlanStage, p: Progress)
    requires Keyed(env.frozen) && Keyed(env.authorized) && ResolveOne(env, stage, p).Some?
    ensures var q := ResolveOne(env, stage, p).value.resolution;
            var listed, blocked := AssignedIds(p.resolution.assignments), BlockedIds(p.resolution.blocked);
            if !stage.kind.AgentStage? then q == p.resolution
            else || (AssignedIds(q.assignments) == listed + [stage.id] && BlockedIds(q.blocked) == blocked)
                 || (AssignedIds(q.assignments) == listed && BlockedIds(q.blocked) == blocked + [stage.id])
  {
    var q := ResolveOne(env, stage, p).value.resolution;
    if |q.assignments| > |p.resolution.assignments| {
      assert AssignedIds(q.assignments) == AssignedIds(p.resolution.assignments) + [stage.id];
    } else if |q.blocked| > |p.resolution.blocked| {
      assert BlockedIds(q.blocked) == BlockedIds(p.resolution.blocked) + [stage.id];
    }
  }

  lemma OneAnswer(env: Env, stage: PlanStage, p: Progress)
    requires Keyed(env.frozen) && Keyed(env.authorized) && ResolveOne(env, stage, p).Some?
    ensures Answered(ResolveOne(env, stage, p).value.resolution)
         == Answered(p.resolution) + if stage.kind.AgentStage? then multiset{stage.id} else multiset{}
  {
    OneAnswerListed(env, stage, p);
  }

  lemma {:induction false} AnsweredSoFar(env: Env, stages: seq<PlanStage>, n: nat)
    requires n <= |stages| && Keyed(env.frozen) && Keyed(env.authorized) && Resolving(env, stages, n).Some?
    ensures Answered(Resolving(env, stages, n).value.resolution) == AgentStages(stages, n)
  {
    if n > 0 {
      AnsweredSoFar(env, stages, n - 1);
      OneAnswer(env, stages[n - 1], Resolving(env, stages, n - 1).value);
    }
  }

  /** The assigned stages and the blocked stages are together the plan's agent stages, each once. */
  lemma EveryAgentStageOnce(input: Input)
    requires Keyed(input.frozen) && Keyed(input.authorized) && ResolutionOf(input).Some?
    ensures Answered(ResolutionOf(input).value) == AgentStages(input.stages, |input.stages|)
  {
    AnsweredSoFar(EnvOf(input), input.stages, |input.stages|);
  }

  // ---------------------------------------------------------------- workers are settled once

  lemma {:induction false} WorkersComeFrom(env: Env, stages: seq<PlanStage>, n: nat, id: Id)
    requires n <= |stages| && Resolving(env, stages, n).Some?
    ensures id in env.frozen ==> id in Resolving(env, stages, n).value.workers && Resolving(env, stages, n).value.workers[id] == env.frozen[id]
    ensures id in Resolving(env, stages, n).value.workers && id !in env.frozen ==> exists j :: 0 <= j < n && stages[j].id == id
  {
    if n > 0 {
      WorkersComeFrom(env, stages, n - 1, id);
      if id in Resolving(env, stages, n).value.workers && id !in env.frozen && id !in Resolving(env, stages, n - 1).value.workers {
        assert stages[n - 1].id == id;
      }
    }
  }

  lemma OneStageSettles(env: Env, stage: PlanStage, p: Progress, id: Id)
    requires ResolveOne(env, stage, p).Some? && id in p.workers
    requires id in env.frozen ==> p.workers[id] == env.frozen[id]
    requires id !in env.frozen ==> stage.id != id
    ensures id in ResolveOne(env, stage, p).value.workers && ResolveOne(env, stage, p).value.workers[id] == p.workers[id]
  {
  }

  /** A worker, once there, is the worker the plan ends with. */
  lemma {:induction false} WorkersStay(env: Env, stages: seq<PlanStage>, n: nat, m: nat, id: Id)
    requires DistinctStages(stages) && n <= m <= |stages| && Resolving(env, stages, m).Some?
    requires Resolving(env, stages, n).Some? && id in Resolving(env, stages, n).value.workers
    ensures id in Resolving(env, stages, m).value.workers
    ensures Resolving(env, stages, m).value.workers[id] == Resolving(env, stages, n).value.workers[id]
    decreases m
  {
    if n < m {
      WorkersStay(env, stages, n, m - 1, id);
      WorkersComeFrom(env, stages, n, id);
      WorkersComeFrom(env, stages, m - 1, id);
      OneStageSettles(env, stages[m - 1], Resolving(env, stages, m - 1).value, id);
    }
  }

  // ---------------------------------------------------------------- the choice

  predicate Matches(stage: PlanStage, profile: Profile) {
    stage.profile.Some? ==> profile.id == stage.profile.value
  }

  /** The order of preference: the default agent's profiles first, then by profile id. */
  predicate AtLeastAsGood(a: Profile, b: Profile, defaultAgent: Option<Id>) {
    var first, second := Some(a.executionAgent) == defaultAgent, Some(b.executionAgent) == defaultAgent;
    (first && !second) || (first == second && a.id <= b.id)
  }

  ghost predicate Keeps(env: Env) {
    forall id | id in env.agents :: env.agents[id].id == id
  }

  /** Nothing is selected exactly when no candidate is eligible; what is selected is eligible and at least as good as every other eligible candidate. */
  ghost predicate BestOf(env: Env, stage: PlanStage, workers: map<Id, Assignment>, n: nat, s: Search)
    requires n <= |env.profiles|
  {
    && (s.selected.None? ==> forall k | 0 <= k < n :: !(Matches(stage, env.profiles[k]) && Eligible(env, stage, env.profiles[k], workers)))
    && (s.selected.Some? ==>
          && s.selected.value.profile in env.profiles[..n]
          && Matches(stage, s.selected.value.profile) && Eligible(env, stage, s.selected.value.profile, workers)
          && s.selected.value.agent == env.agents[s.selected.value.profile.executionAgent]
          && forall k | 0 <= k < n :: Matches(stage, env.profiles[k]) && Eligible(env, stage, env.profiles[k], workers) ==>
               stage.profile.Some? || AtLeastAsGood(s.selected.value.profile, env.profiles[k], env.defaultAgent))
  }

  lemma PreferredIsBetter(env: Env, a: Pick, b: Pick)
    requires Keeps(env)
    requires a.profile.executionAgent in env.agents && a.agent == env.agents[a.profile.executionAgent]
    requires b.profile.executionAgent in env.agents && b.agent == env.agents[b.profile.executionAgent]
    ensures Preferred(a.profile, a.agent, b.profile, b.agent, None, env.defaultAgent) ==> AtLeastAsGood(a.profile, b.profile, env.defaultAgent)
    ensures !Preferred(a.profile, a.agent, b.profile, b.agent, None, env.defaultAgent) ==> AtLeastAsGood(b.profile, a.profile, env.defaultAgent)
  {
  }

  lemma ConsiderKeepsBest(env: Env, stage: PlanStage, workers: map<Id, Assignment>, n: nat, s: Search)
    requires Keeps(env) && n < |env.profiles| && BestOf(env, stage, workers, n, s)
    ensures BestOf(env, stage, workers, n + 1, Consider(env, stage, env.profiles[n], workers, s))
  {
    var p := env.profiles[n];
    assert env.profiles[..n + 1] == env.profiles[..n] + [p];
    if Matches(stage, p) && Eligible(env, stage, p, workers) && s.selected.Some? && stage.profile.None? {
      PreferredIsBetter(env, Pick(p, env.agents[p.executionAgent]), s.selected.value);
    }
  }

  lemma {:induction false} SelectedIsBest(env: Env, stage: PlanStage, workers: map<Id, Assignment>, n: nat)
    requires Keeps(env) && n <= |env.profiles|
    ensures BestOf(env, stage, workers, n, Searched(env, stage, workers, n))
  {
    if n > 0 {
      SelectedIsBest(env, stage, workers, n - 1);
      ConsiderKeepsBest(env, stage, workers, n - 1, Searched(env, stage, workers, n - 1));
    }
  }

  lemma {:induction false} IndexKeepsIds(agents: seq<Agent>)
    ensures forall id | id in AgentIndex(agents) :: AgentIndex(agents)[id].id == id && AgentIndex(agents)[id] in agents
  {
    if agents != [] { IndexKeepsIds(agents[..|agents| - 1]); }
  }

  // ---------------------------------------------------------------- what a fresh assignment meets

  /** The worker can do everything the stage and its profile ask, and the budget is only narrower. */
  ghost predicate Meets(stage: PlanStage, profile: Profile, agent: Agent, a: Assignment) {
    && a.stageId == stage.id && a.agentId == agent.id && a.profileId == profile.id
    && (forall c | c in stage.requiresCapabilities :: c in profile.capabilities && c in agent.capabilities)
    && TrustStrength(stage.trust) <= TrustStrength(a.trust) <= TrustStrength(agent.trustMode)
    && TrustStrength(profile.trust) <= TrustStrength(a.trust)
    && (stage.invocationMode.Some? ==> stage.invocationMode.value in agent.invocationModes)
    && (stage.role.Some? && ProducesReviewVerdict(stage.role.value) ==> agent.structuredVerdicts)
    && agent.available
    && a.budget == TightenedByProfile(stage.budget, profile.constraints)
  }

  lemma {:induction false} EligibleMeets(env: Env, stage: PlanStage, pick: Pick, workers: map<Id, Assignment>, considered: seq<Evaluation>, includes: bool)
    requires stage.kind.AgentStage? && Eligible(env, stage, pick.profile, workers) && pick.agent == env.agents[pick.profile.executionAgent]
    ensures Meets(stage, pick.profile, pick.agent, Assigned(env, stage, pick, considered, includes))
    ensures !ViolatesIndependence(stage, pick.profile, pick.agent, workers, env.unknownWord)
  {
    var kinds := Ineligibility(stage, pick.profile, pick.agent, workers, env.unknownWord);
    assert NoEligibleProfile !in kinds && InvocationModeUnavailable !in kinds && VerdictProtocolUnavailable !in kinds;
    assert AgentUnavailable !in kinds && IndependenceShortage !in kinds;
  }

  /** A stage whose worker is chosen now rather than carried over. */
  predicate IsFresh(env: Env, stage: PlanStage) {
    stage.kind.AgentStage? && stage.id !in env.frozen && stage.id !in env.authorized
  }

  lemma FreshOutcome(env: Env, stage: PlanStage, workers: map<Id, Assignment>)
    requires Keeps(env) && stage.kind.AgentStage? && OutcomeOf(env, stage, workers).Fresh?
    ensures var a := OutcomeOf(env, stage, workers).assignment;
            exists profile :: profile in env.profiles && profile.executionAgent in env.agents
              && Meets(stage, profile, env.agents[profile.executionAgent], a) && BestEligible(env, stage, workers, profile)
    ensures IndependentOf(stage, OutcomeOf(env, stage, workers).assignment, workers, env.unknownWord)
  {
    var n := |env.profiles|;
    var s := Searched(env, stage, workers, n);
    SelectedIsBest(env, stage, workers, n);
    EligibleMeets(env, stage, s.selected.value, workers, s.considered, env.packs[stage.id]);
    AssignedApart(env, stage, s.selected.value, workers, s.considered, env.packs[stage.id]);
    assert BestEligible(env, stage, workers, s.selected.value.profile);
  }

  ghost predicate BestEligible(env: Env, stage: PlanStage, workers: map<Id, Assignment>, profile: Profile) {
    && Matches(stage, profile) && Eligible(env, stage, profile, workers)
    && (stage.profile.None? ==> forall k | 0 <= k < |env.profiles| && Eligible(env, stage, env.profiles[k], workers) ::
          AtLeastAsGood(profile, env.profiles[k], env.defaultAgent))
  }

  /** A name that is there and is not the word for an unknown one. */
  ghost predicate Names(word: Option<Id>, unknownWord: Id) {
    word != None && word != Some(unknownWord)
  }

  ghost predicate NamesApart(a: Option<Id>, b: Option<Id>, unknownWord: Id) {
    Names(a, unknownWord) && Names(b, unknownWord) && a != b
  }

  /** Two assigned workers stand apart in the dimension. */
  ghost predicate WorkersApart(dimension: Dimension, a: Assignment, b: Assignment, unknownWord: Id) {
    match dimension
    case AgentProfileDimension => a.profileId != b.profileId || a.profileDigest != b.profileDigest
    case ExecutionAgentDimension => NamesApart(Some(a.agentId), Some(b.agentId), unknownWord)
    case ProviderKindDimension => NamesApart(a.providerKind, b.providerKind, unknownWord)
    case VendorFamilyDimension => NamesApart(a.vendorFamily, b.vendorFamily, unknownWord)
    case HumanDimension => false
    case UnknownDimension(_) => false
  }

  /** In the required dimension the worker stands apart from the worker of every named peer. */
  ghost predicate IndependentOf(stage: PlanStage, a: Assignment, workers: map<Id, Assignment>, unknownWord: Id) {
    stage.independence.Some? ==>
      forall other | other in stage.independence.value.differentFrom ::
        other in workers && WorkersApart(stage.independence.value.dimension, a, workers[other], unknownWord)
  }

  /** A worker that breaks no independence stands apart from every peer once it is assigned. */
  lemma {:induction false} AssignedApart(env: Env, stage: PlanStage, pick: Pick, workers: map<Id, Assignment>, considered: seq<Evaluation>, includes: bool)
    requires !ViolatesIndependence(stage, pick.profile, pick.agent, workers, env.unknownWord)
    ensures IndependentOf(stage, Assigned(env, stage, pick, considered, includes), workers, env.unknownWord)
  {
    if stage.independence.Some? {
      var a, i := Assigned(env, stage, pick, considered, includes), stage.independence.value;
      forall other | other in i.differentFrom ensures other in workers && WorkersApart(i.dimension, a, workers[other], env.unknownWord) {
        assert ProvenDifferent(ClassOf(i.dimension, pick.profile, pick.agent, env.unknownWord),
                               AssignedClass(i.dimension, workers[other], env.unknownWord), env.unknownWord);
      }
    }
  }

  lemma {:induction false} StaysIndependent(env: Env, stages: seq<PlanStage>, i: nat, a: Assignment)
    requires DistinctStages(stages) && i < |stages| && Resolving(env, stages, |stages|).Some? && Resolving(env, stages, i).Some?
    requires IndependentOf(stages[i], a, Resolving(env, stages, i).value.workers, env.unknownWord)
    ensures IndependentOf(stages[i], a, Resolving(env, stages, |stages|).value.workers, env.unknownWord)
  {
    if stages[i].independence.Some? {
      forall other | other in stages[i].independence.value.differentFrom
        ensures other in Resolving(env, stages, |stages|).value.workers
        ensures Resolving(env, stages, |stages|).value.workers[other] == Resolving(env, stages, i).value.workers[other]
      {
        WorkersStay(env, stages, i, |stages|, other);
      }
    }
  }

  lemma {:induction false} FreshWorkerIsNew(env: Env, stages: seq<PlanStage>, i: nat)
    requires DistinctStages(stages) && i < |stages| && IsFresh(env, stages[i])
    requires Resolving(env, stages, i + 1).Some? && stages[i].id in Resolving(env, stages, i + 1).value.workers
    ensures Resolving(env, stages, i).Some?
    ensures OutcomeOf(env, stages[i], Resolving(env, stages, i).value.workers)
         == Fresh(Resolving(env, stages, i + 1).value.workers[stages[i].id])
  {
    WorkersComeFrom(env, stages, i, stages[i].id);
  }

  /**
    Whatever order the stages are listed in, the worker chosen for a stage is known to differ,
    in the dimension the stage requires, from the worker every named peer ends up with; and it
    can do everything the stage asks.
   */
  lemma {:induction false} IndependenceHoldsAtTheEnd(env: Env, stages: seq<PlanStage>, i: nat)
    requires Keeps(env) && DistinctStages(stages) && i < |stages| && IsFresh(env, stages[i])
    requires Resolving(env, stages, |stages|).Some? && stages[i].id in Resolving(env, stages, |stages|).value.workers
    ensures var final := Resolving(env, stages, |stages|).value.workers;
            && IndependentOf(stages[i], final[stages[i].id], final, env.unknownWord)
            && exists profile :: profile in env.profiles && profile.executionAgent in env.agents
                 && Meets(stages[i], profile, env.agents[profile.executionAgent], final[stages[i].id])
  {
    ErrorStays(env, stages, i, |stages|);
    ErrorStays(env, stages, i + 1, |stages|);
    SettledAtItsTurn(env, stages, i, |stages|);
    FreshWorkerIsNew(env, stages, i);
    var workers := Resolving(env, stages, i).value.workers;
    FreshOutcome(env, stages[i], workers);
    StaysIndependent(env, stages, i, OutcomeOf(env, stages[i], workers).assignment);
    WorkersStay(env, stages, i + 1, |stages|, stages[i].id);
  }

  /** A stage that is not assigned at its own turn is never assigned. */
  lemma {:induction false} SettledAtItsTurn(env: Env, stages: seq<PlanStage>, i: nat, m: nat)
    requires DistinctStages(stages) && i < m <= |stages| && Resolving(env, stages, m).Some? && stages[i].id in Resolving(env, stages, m).value.workers
    ensures Resolving(env, stages, i + 1).Some? && stages[i].id in Resolving(env, stages, i + 1).value.workers
    decreases m
  {
    if i + 1 < m { SettledAtItsTurn(env, stages, i, m - 1); }
  }

  /** A stage that ends up blocked had no eligible candidate when its turn came. */
  lemma BlockedMeansNoneEligible(env: Env, stage: PlanStage, workers: map<Id, Assignment>, k: nat)
    requires Keeps(env) && OutcomeOf(env, stage, workers).Shortage? && k < |env.profiles| && Matches(stage, env.profiles[k])
    ensures !Eligible(env, stage, env.profiles[k], workers)
  {
    SelectedIsBest(env, stage, workers, |env.profiles|);
  }

  // ---------------------------------------------------------------- the order of the workforce does not matter

  /** By id, and an installed profile before a direct one of the same id. */
  predicate Before(a: Profile, b: Profile) {
    a.id < b.id || (a.id == b.id && a.digest.OfFile? && b.digest.OfAgent?)
  }

  ghost predicate Ranked(s: seq<Profile>) {
    forall i, j | 0 <= i < j < |s| :: Before(s[i], s[j])
  }

  lemma {:induction false} InsertIsThere(p: Profile, s: seq<Profile>, x: Profile)
    ensures x in InsertById(p, s) <==> x == p || x in s
  {
    if s != [] && s[|s| - 1].id > p.id {
      InsertIsThere(p, s[..|s| - 1], x);
      assert x in s <==> x in s[..|s| - 1] || x == s[|s| - 1];
    }
  }

  lemma {:induction false} InsertRanks(p: Profile, s: seq<Profile>)
    requires Ranked(s) && forall x | x in s && x.id == p.id :: x.digest.OfFile? && p.digest.OfAgent?
    ensures Ranked(InsertById(p, s))
  {
    if s != [] && s[|s| - 1].id > p.id {
      var n := |s| - 1;
      InsertRanks(p, s[..n]);
      var r := InsertById(p, s[..n]);
      forall i | 0 <= i < |r| ensures Before(r[i], s[n]) {
        InsertIsThere(p, s[..n], r[i]);
        assert r[i] in r;
      }
    } else if s != [] {
      assert s[|s| - 1] in s;
      forall i | 0 <= i < |s| ensures Before(s[i], p) { assert s[i] in s; }
    }
  }

  /** No two profiles share an id, except an installed one and a later direct one. */
  ghost predicate Separated(s: seq<Profile>) {
    forall i, j | 0 <= i < j < |s| && s[i].id == s[j].id :: s[i].digest.OfFile? && s[j].digest.OfAgent?
  }

  lemma {:induction false} SortRanks(s: seq<Profile>)
    requires Separated(s)
    ensures Ranked(SortById(s)) && forall x :: x in SortById(s) <==> x in s
  {
    if s != [] {
      var n := |s| - 1;
      SortRanks(s[..n]);
      var before := SortById(s[..n]);
      forall x | x in before && x.id == s[n].id ensures x.digest.OfFile? && s[n].digest.OfAgent? {
        assert x in s[..n];
      }
      InsertRanks(s[n], before);
      forall x ensures x in SortById(s) <==> x in s {
        InsertIsThere(s[n], before, x);
        assert x in s <==> x in s[..n] || x == s[n];
      }
    }
  }

  lemma {:induction false} SomeElement(s: seq<Profile>)
    ensures s != [] ==> exists x :: x in s
  {
    if s != [] { assert s[0] in s; }
  }

  /** Two ranked lists of the same profiles are the same list. */
  lemma {:induction false} RankedUnique(a: seq<Profile>, b: seq<Profile>)
    requires Ranked(a) && Ranked(b) && forall x :: x in a <==> x in b
    ensures a == b
  {
    if a == [] {
      SomeElement(b);
    } else {
      assert a[0] in b;
      assert b[0] in a;
      assert a[0] == b[0];
      assert a == [a[0]] + a[1..] && b == [b[0]] + b[1..];
      forall x ensures x in a[1..] <==> x in b[1..] {
        assert a[0] !in a[1..] && b[0] !in b[1..];
        assert x in a <==> x == a[0] || x in a[1..];
        assert x in b <==> x == b[0] || x in b[1..];
      }
      RankedUnique(a[1..], b[1..]);
    }
  }

  ghost predicate DistinctAgents(agents: seq<Agent>) {
    forall i, j | 0 <= i < j < |agents| :: agents[i].id != agents[j].id
  }

  lemma {:induction false} DirectsAre(installed: seq<Profile>, agents: seq<Agent>)
    requires DistinctAgents(agents)
    ensures forall x :: x in Directs(installed, agents) <==>
              x.digest.OfAgent? && x.digest.agent in agents && x == DirectProfile(x.digest.agent) && !Specialized(installed, x.id)
    ensures forall i, j | 0 <= i < j < |Directs(installed, agents)| :: Directs(installed, agents)[i].id != Directs(installed, agents)[j].id
  {
    if agents != [] {
      var n := |agents| - 1;
      var before := Directs(installed, agents[..n]);
      DirectsAre(installed, agents[..n]);
      assert forall a :: a in agents <==> a in agents[..n] || a == agents[n];
      forall i | 0 <= i < |before| ensures before[i].id != agents[n].id {
        assert before[i] in before;
      }
    }
  }

  /** Every installed profile is kept under its own id and carries its file's digest. */
  ghost predicate ValidRegistry(registry: Registry) {
    forall id | id in registry.profiles :: registry.profiles[id].id == id && registry.profiles[id].digest.OfFile?
  }

  lemma {:induction false} InstalledAre(profiles: map<Id, Profile>, ids: seq<Id>)
    requires forall id | id in ids :: id in profiles && profiles[id].id == id && profiles[id].digest.OfFile?
    ensures |Installed(profiles, ids)| == |ids| && forall i | 0 <= i < |ids| :: Installed(profiles, ids)[i].id == ids[i] && Installed(profiles, ids)[i].digest.OfFile?
  {
    if ids != [] { InstalledAre(profiles, ids[..|ids| - 1]); }
  }

  lemma {:induction false} CandidatesSeparated(registry: Registry, agents: seq<Agent>)
    requires ValidRegistry(registry) && DistinctAgents(agents)
    ensures Separated(InstalledIn(registry) + Directs(InstalledIn(registry), agents))
  {
    KeysListed(registry);
    var ids := Listing(registry.profiles.Keys);
    ListingLists(registry.profiles.Keys);
    InstalledAre(registry.profiles, ids);
    var installed := InstalledIn(registry);
    DirectsAre(installed, agents);
    forall j | 0 <= j < |Directs(installed, agents)| ensures Directs(installed, agents)[j].digest.OfAgent? {
      assert Directs(installed, agents)[j] in Directs(installed, agents);
    }
  }

  lemma {:induction false} SameCandidates(registry: Registry, a: seq<Agent>, b: seq<Agent>)
    requires ValidRegistry(registry) && DistinctAgents(a) && DistinctAgents(b) && forall x :: x in a <==> x in b
    ensures Candidates(registry, a) == Candidates(registry, b)
  {
    var installed := InstalledIn(registry);
    CandidatesSeparated(registry, a);
    CandidatesSeparated(registry, b);
    SortRanks(installed + Directs(installed, a));
    SortRanks(installed + Directs(installed, b));
    DirectsAre(installed, a);
    DirectsAre(installed, b);
    RankedUnique(Candidates(registry, a), Candidates(registry, b));
  }

  lemma {:induction false} IndexHolds(agents: seq<Agent>, x: Agent)
    requires DistinctAgents(agents)
    ensures x in agents <==> x.id in AgentIndex(agents) && AgentIndex(agents)[x.id] == x
  {
    if agents != [] {
      var n := |agents| - 1;
      IndexHolds(agents[..n], x);
      assert x in agents <==> x in agents[..n] || x == agents[n];
    }
  }

  lemma {:induction false} SameIndex(a: seq<Agent>, b: seq<Agent>)
    requires DistinctAgents(a) && DistinctAgents(b) && forall x :: x in a <==> x in b
    ensures AgentIndex(a) == AgentIndex(b)
  {
    IndexKeepsIds(a);
    IndexKeepsIds(b);
    forall id ensures id in AgentIndex(a) <==> id in AgentIndex(b) {
      if id in AgentIndex(a) { IndexHolds(b, AgentIndex(a)[id]); }
      if id in AgentIndex(b) { IndexHolds(a, AgentIndex(b)[id]); }
    }
    forall id | id in AgentIndex(a) ensures AgentIndex(a)[id] == AgentIndex(b)[id] {
      IndexHolds(b, AgentIndex(a)[id]);
    }
  }

  /** However the workforce is listed, the whole resolution is the same, explanations included. */
  lemma {:induction false} WorkforceOrderIrrelevant(input: Input, agents: seq<Agent>)
    requires ValidRegistry(input.registry) && DistinctAgents(input.agents) && DistinctAgents(agents)
    requires forall x :: x in input.agents <==> x in agents
    ensures ResolutionOf(input.(agents := agents)) == ResolutionOf(input)
  {
    SameCandidates(input.registry, input.agents, agents);
    SameIndex(input.agents, agents);
    assert EnvOf(input.(agents := agents)) == EnvOf(input);
  }

  /** Resolution's own environment satisfies what the laws above ask of it. */
  lemma InputKeeps(input: Input)
    ensures Keeps(EnvOf(input))
  {
    IndexKeepsIds(input.agents);
  }
}
