/** Assigning a worker to every agent stage of a plan, or saying why there is none. */
module Resolver {
  import opened Ids
  import opened Vocabulary
  import opened Plans
  import opened Budgets

  datatype ArtifactSource = OperatorConfig | OperatorFile | OtherSource(name: Id)

  datatype Agent = Agent(
    id: Id,
    providerKind: Option<Id>,
    vendorFamily: Option<Id>,
    trustMode: Trust,
    model: Option<Id>,
    capabilities: seq<Capability>,
    invocationModes: seq<InvocationMode>,
    available: bool,
    structuredVerdicts: bool)

  /** An installed profile carries the digest computed from its file; a direct one, from its agent. */
  datatype Digest = OfFile(name: Id) | OfAgent(agent: Agent)

  datatype Profile = Profile(
    id: Id,
    version: nat,
    digest: Digest,
    executionAgent: Id,
    model: Option<Id>,
    capabilities: seq<Capability>,
    trust: Trust,
    source: ArtifactSource,
    contextPolicy: Option<Id>,
    constraints: ProfileConstraints)

  datatype Registry = Registry(profiles: map<Id, Profile>, contexts: set<Id>)

  datatype UpstreamOutput = UpstreamOutput(stage: Id, candidate: Id)

  /** The part of a compiled context that approval does not bind. */
  datatype Context = Context(includesUpstream: bool, upstream: seq<UpstreamOutput>)

  /** A word naming a class, or the profile itself. */
  datatype Class = Word(word: Option<Id>) | ProfileClass(id: Id, digest: Digest)

  datatype Binding = Binding(dimension: Dimension, differentFrom: seq<Id>, own: Class)

  datatype BlockKind =
    | NoEligibleProfile | InvocationModeUnavailable | VerdictProtocolUnavailable
    | IndependenceShortage | AgentUnavailable | ArtifactNotInstalled

  datatype Evaluation = Evaluation(profile: Id, agent: Id, eligible: bool)

  datatype Assignment = Assignment(
    stageId: Id,
    role: Option<Role>,
    requiredCapabilities: seq<Capability>,
    profileId: Id,
    profileDigest: Digest,
    agentId: Id,
    providerKind: Option<Id>,
    vendorFamily: Option<Id>,
    trustMode: Trust,
    model: Option<Id>,
    invocationMode: Option<InvocationMode>,
    trust: Trust,
    context: Context,
    budget: StageBudget,
    independence: Option<Binding>,
    considered: seq<Evaluation>)

  datatype Blocked = Blocked(
    stageId: Id, role: Option<Role>, kind: BlockKind, considered: seq<Evaluation>, humanSubstitutionPermitted: bool)

  datatype Resolution = Resolution(assignments: seq<Assignment>, blocked: seq<Blocked>)

  /**
    Everything resolution reads. `unknownWord` is the name that spells "unknown" where a class
    is a name; `packs` says of each stage what compiling its context selects, and a stage
    whose context or assignment cannot be compiled is not in it.
   */
  datatype Input = Input(
    stages: seq<PlanStage>,
    registry: Registry,
    agents: seq<Agent>,
    upstream: map<Id, seq<UpstreamOutput>>,
    defaultAgent: Option<Id>,
    frozen: map<Id, Assignment>,
    authorized: map<Id, Assignment>,
    unknownWord: Id,
    packs: map<Id, bool>)

  // ---------------------------------------------------------------- candidates

  function DirectProfile(agent: Agent): Profile {
    Profile(agent.id, 1, OfAgent(agent), agent.id, agent.model, agent.capabilities, agent.trustMode, OperatorConfig, None,
            ProfileConstraints(None, None, None))
  }

  function Installed(profiles: map<Id, Profile>, ids: seq<Id>): seq<Profile>
    requires forall id | id in ids :: id in profiles
  {
    if ids == [] then [] else Installed(profiles, ids[..|ids| - 1]) + [profiles[ids[|ids| - 1]]]
  }

  predicate Specialized(installed: seq<Profile>, agent: Id) {
    exists p | p in installed :: p.executionAgent == agent
  }

  /** A direct profile for every agent no installed profile runs on. */
  function Directs(installed: seq<Profile>, agents: seq<Agent>): seq<Profile> {
    if agents == [] then []
    else
      var last := agents[|agents| - 1];
      Directs(installed, agents[..|agents| - 1]) + if Specialized(installed, last.id) then [] else [DirectProfile(last)]
  }

  function InsertById(p: Profile, sorted: seq<Profile>): seq<Profile> {
    if sorted == [] || sorted[|sorted| - 1].id <= p.id then sorted + [p]
    else InsertById(p, sorted[..|sorted| - 1]) + [sorted[|sorted| - 1]]
  }

  /** `sort.SliceStable` by id. */
  function SortById(profiles: seq<Profile>): seq<Profile> {
    if profiles == [] then []
    else InsertById(profiles[|profiles| - 1], SortById(profiles[..|profiles| - 1]))
  }

  lemma KeysListed(registry: Registry)
    ensures forall id | id in Listing(registry.profiles.Keys) :: id in registry.profiles
  {
    ListingLists(registry.profiles.Keys);
    forall id | id in Listing(registry.profiles.Keys) ensures id in registry.profiles {
      assert id in Elements(Listing(registry.profiles.Keys));
    }
  }

  function InstalledIn(registry: Registry): seq<Profile> {
    KeysListed(registry);
    Installed(registry.profiles, Listing(registry.profiles.Keys))
  }

  function Candidates(registry: Registry, agents: seq<Agent>): seq<Profile> {
    SortById(InstalledIn(registry) + Directs(InstalledIn(registry), agents))
  }

  /** `candidateProfiles`. */
  method CandidateProfiles(registry: Registry, agents: seq<Agent>) returns (profiles: seq<Profile>)
    ensures profiles == Candidates(registry, agents)
  {
    KeysListed(registry);
    var ids := Listing(registry.profiles.Keys);
    profiles := [];
    for i := 0 to |ids|
      invariant profiles == Installed(registry.profiles, ids[..i])
    {
      assert ids[..i + 1][..i] == ids[..i];
      profiles := profiles + [registry.profiles[ids[i]]];
    }
    assert ids[..|ids|] == ids;
    ghost var installed := profiles;
    var specialized: set<Id> := {};
    for i := 0 to |profiles|
      invariant forall a :: a in specialized <==> exists k :: 0 <= k < i && profiles[k].executionAgent == a
    {
      specialized := specialized + {profiles[i].executionAgent};
    }
    assert forall a :: a in specialized <==> Specialized(installed, a);
    ghost var directs: seq<Profile> := [];
    for i := 0 to |agents|
      invariant directs == Directs(installed, agents[..i]) && profiles == installed + directs
    {
      assert agents[..i + 1][..i] == agents[..i];
      if agents[i].id in specialized { continue; }
      directs := directs + [DirectProfile(agents[i])];
      profiles := profiles + [DirectProfile(agents[i])];
    }
    assert agents[..|agents|] == agents;
    profiles := SortById(profiles);
  }

  function AgentIndex(agents: seq<Agent>): map<Id, Agent> {
    if agents == [] then map[]
    else AgentIndex(agents[..|agents| - 1])[agents[|agents| - 1].id := agents[|agents| - 1]]
  }

  // ---------------------------------------------------------------- eligibility

  /** `RefuseEscalation`: a profile narrows its worker and never extends it. */
  predicate Escalates(profile: Profile, agent: Agent) {
    || TrustStrength(profile.trust) > TrustStrength(agent.trustMode)
    || (exists c | c in profile.capabilities :: c !in agent.capabilities)
    || profile.capabilities == []
    || !(profile.source.OperatorConfig? || profile.source.OperatorFile?)
  }

  /** The trust an assignment asks for: the profile's where it is stronger, else the stage's or its default. */
  function EffectiveTrust(stage: PlanStage, profile: Profile): Trust {
    if TrustStrength(profile.trust) > TrustStrength(stage.trust) then profile.trust
    else if stage.trust.Unstated? then OperatorTrusted
    else stage.trust
  }

  function ClassOf(dimension: Dimension, profile: Profile, agent: Agent, unknownWord: Id): Class {
    match dimension
    case AgentProfileDimension => ProfileClass(profile.id, profile.digest)
    case ExecutionAgentDimension => Word(Some(agent.id))
    case ProviderKindDimension => Word(agent.providerKind)
    case VendorFamilyDimension => Word(agent.vendorFamily)
    case _ => Word(Some(unknownWord))
  }

  function AssignedClass(dimension: Dimension, a: Assignment, unknownWord: Id): Class {
    match dimension
    case AgentProfileDimension => ProfileClass(a.profileId, a.profileDigest)
    case ExecutionAgentDimension => Word(Some(a.agentId))
    case ProviderKindDimension => Word(a.providerKind)
    case VendorFamilyDimension => Word(a.vendorFamily)
    case _ => Word(Some(unknownWord))
  }

  predicate Known(c: Class, unknownWord: Id) {
    c.ProfileClass? || (c.word.Some? && c.word.value != unknownWord)
  }

  /** A class known to differ from another known class; nothing less proves independence. */
  predicate ProvenDifferent(a: Class, b: Class, unknownWord: Id) {
    Known(a, unknownWord) && Known(b, unknownWord) && a != b
  }

  predicate ViolatesIndependence(stage: PlanStage, profile: Profile, agent: Agent, workers: map<Id, Assignment>, unknownWord: Id) {
    stage.independence.Some? &&
    exists other | other in stage.independence.value.differentFrom ::
      || other !in workers
      || !ProvenDifferent(
           ClassOf(stage.independence.value.dimension, profile, agent, unknownWord),
           AssignedClass(stage.independence.value.dimension, workers[other], unknownWord), unknownWord)
  }

  function When(b: bool, kind: BlockKind): set<BlockKind> {
    if b then {kind} else {}
  }

  /** `eligibility`: the objections to a profile for a stage; a profile without any is eligible. */
  function Ineligibility(stage: PlanStage, profile: Profile, agent: Agent, workers: map<Id, Assignment>, unknownWord: Id): set<BlockKind> {
    if Escalates(profile, agent) then {NoEligibleProfile}
    else
      When(exists c | c in stage.requiresCapabilities :: c !in profile.capabilities, NoEligibleProfile)
      + When(TrustStrength(agent.trustMode) < TrustStrength(EffectiveTrust(stage, profile)), NoEligibleProfile)
      + When(stage.invocationMode.Some? && stage.invocationMode.value !in agent.invocationModes, InvocationModeUnavailable)
      + When(stage.kind.AgentStage? && stage.role.Some? && ProducesReviewVerdict(stage.role.value) && !agent.structuredVerdicts,
             VerdictProtocolUnavailable)
      + When(!agent.available, AgentUnavailable)
      + When(ViolatesIndependence(stage, profile, agent, workers, unknownWord), IndependenceShortage)
  }

  /** `preferred`: whether a later candidate displaces the current one; a pinned profile is displaced by none. */
  predicate Preferred(candidate: Profile, candidateAgent: Agent, current: Profile, currentAgent: Agent, pinned: Option<Id>, defaultAgent: Option<Id>) {
    if pinned.Some? then Some(candidate.id) == pinned && Some(current.id) != pinned
    else if defaultAgent.Some? && candidateAgent.id != currentAgent.id && Some(candidateAgent.id) == defaultAgent then true
    else if defaultAgent.Some? && candidateAgent.id != currentAgent.id && Some(currentAgent.id) == defaultAgent then false
    else candidate.id < current.id
  }

  // ---------------------------------------------------------------- one stage

  /** What resolution holds fixed while it goes through the stages. */
  datatype Env = Env(
    profiles: seq<Profile>,
    agents: map<Id, Agent>,
    registry: Registry,
    upstream: map<Id, seq<UpstreamOutput>>,
    defaultAgent: Option<Id>,
    frozen: map<Id, Assignment>,
    authorized: map<Id, Assignment>,
    unknownWord: Id,
    packs: map<Id, bool>)

  function EnvOf(input: Input): Env {
    Env(Candidates(input.registry, input.agents), AgentIndex(input.agents), input.registry, input.upstream, input.defaultAgent,
        input.frozen, input.authorized, input.unknownWord, input.packs)
  }

  datatype Pick = Pick(profile: Profile, agent: Agent)

  datatype Search = Search(selected: Option<Pick>, considered: seq<Evaluation>, blockedBy: set<BlockKind>)

  predicate Eligible(env: Env, stage: PlanStage, profile: Profile, workers: map<Id, Assignment>) {
    && profile.executionAgent in env.agents
    && Ineligibility(stage, profile, env.agents[profile.executionAgent], workers, env.unknownWord) == {}
  }

  /** One candidate more. */
  function Consider(env: Env, stage: PlanStage, profile: Profile, workers: map<Id, Assignment>, s: Search): Search {
    if stage.profile.Some? && profile.id != stage.profile.value then s
    else if profile.executionAgent !in env.agents then
      s.(considered := s.considered + [Evaluation(profile.id, profile.executionAgent, false)], blockedBy := s.blockedBy + {NoEligibleProfile})
    else
      var agent := env.agents[profile.executionAgent];
      var kinds := Ineligibility(stage, profile, agent, workers, env.unknownWord);
      if kinds != {} then
        s.(considered := s.considered + [Evaluation(profile.id, profile.executionAgent, false)], blockedBy := s.blockedBy + kinds)
      else
        Search(
          if s.selected.None? || Preferred(profile, agent, s.selected.value.profile, s.selected.value.agent, stage.profile, env.defaultAgent)
          then Some(Pick(profile, agent)) else s.selected,
          s.considered + [Evaluation(profile.id, profile.executionAgent, true)], s.blockedBy)
  }

  function Searched(env: Env, stage: PlanStage, workers: map<Id, Assignment>, n: nat): Search
    requires n <= |env.profiles|
  {
    if n == 0 then Search(None, [], {})
    else Consider(env, stage, env.profiles[n - 1], workers, Searched(env, stage, workers, n - 1))
  }

  /** The strongest explanation available. */
  function BlockedFor(stage: PlanStage, s: Search): Blocked {
    var kind :=
      if IndependenceShortage in s.blockedBy then IndependenceShortage
      else if InvocationModeUnavailable in s.blockedBy then InvocationModeUnavailable
      else if VerdictProtocolUnavailable in s.blockedBy then VerdictProtocolUnavailable
      else if AgentUnavailable in s.blockedBy then AgentUnavailable
      else NoEligibleProfile;
    Blocked(stage.id, stage.role, kind, s.considered,
            kind.IndependenceShortage? && stage.independence.Some? && stage.independence.value.humanSubstitutionPermitted)
  }

  function ContextPolicyOf(stage: PlanStage, profile: Profile): Option<Id> {
    if stage.contextPolicy.Some? then stage.contextPolicy else profile.contextPolicy
  }

  function InsertByStage(x: UpstreamOutput, sorted: seq<UpstreamOutput>): seq<UpstreamOutput> {
    if sorted == [] || sorted[|sorted| - 1].stage <= x.stage then sorted + [x]
    else InsertByStage(x, sorted[..|sorted| - 1]) + [sorted[|sorted| - 1]]
  }

  function SortedUpstream(outputs: seq<UpstreamOutput>): seq<UpstreamOutput> {
    if outputs == [] then [] else InsertByStage(outputs[|outputs| - 1], SortedUpstream(outputs[..|outputs| - 1]))
  }

  function UpstreamFor(env: Env, stage: Id): seq<UpstreamOutput> {
    if stage in env.upstream then env.upstream[stage] else []
  }

  function Assigned(env: Env, stage: PlanStage, pick: Pick, considered: seq<Evaluation>, includesUpstream: bool): Assignment {
    var binding :=
      if stage.independence.None? then None
      else Some(Binding(stage.independence.value.dimension, stage.independence.value.differentFrom,
                        ClassOf(stage.independence.value.dimension, pick.profile, pick.agent, env.unknownWord)));
    Assignment(stage.id, stage.role, stage.requiresCapabilities, pick.profile.id, pick.profile.digest,
               pick.agent.id, pick.agent.providerKind, pick.agent.vendorFamily, pick.agent.trustMode,
               if pick.profile.model.Some? then pick.profile.model else pick.agent.model,
               stage.invocationMode, EffectiveTrust(stage, pick.profile),
               Context(includesUpstream, if includesUpstream then SortedUpstream(UpstreamFor(env, stage.id)) else []),
               TightenedByProfile(stage.budget, pick.profile.constraints), binding, considered)
  }

  /** An assignment, a block, or an error that fails the whole resolution. */
  datatype Outcome = Fresh(assignment: Assignment) | Shortage(blocked: Blocked) | Error

  function OutcomeOf(env: Env, stage: PlanStage, workers: map<Id, Assignment>): Outcome {
    var s := Searched(env, stage, workers, |env.profiles|);
    if s.selected.None? then Shortage(BlockedFor(stage, s))
    else
      var policy := ContextPolicyOf(stage, s.selected.value.profile);
      if policy.Some? && policy.value !in env.registry.contexts then Error
      else if stage.id !in env.packs then Error
      else Fresh(Assigned(env, stage, s.selected.value, s.considered, env.packs[stage.id]))
  }

  /** `resolveStage`. */
  method ResolveStage(env: Env, stage: PlanStage, workers: map<Id, Assignment>) returns (o: Outcome)
    ensures o == OutcomeOf(env, stage, workers)
  {
    var s := Search(None, [], {});
    for i := 0 to |env.profiles|
      invariant s == Searched(env, stage, workers, i)
    {
      var profile := env.profiles[i];
      if stage.profile.Some? && profile.id != stage.profile.value { continue; }
      if profile.executionAgent !in env.agents {
        s := s.(considered := s.considered + [Evaluation(profile.id, profile.executionAgent, false)], blockedBy := s.blockedBy + {NoEligibleProfile});
        continue;
      }
      var agent := env.agents[profile.executionAgent];
      var kinds := Ineligibility(stage, profile, agent, workers, env.unknownWord);
      if kinds != {} {
        s := s.(considered := s.considered + [Evaluation(profile.id, profile.executionAgent, false)], blockedBy := s.blockedBy + kinds);
        continue;
      }
      s := s.(considered := s.considered + [Evaluation(profile.id, profile.executionAgent, true)]);
      if s.selected.None? || Preferred(profile, agent, s.selected.value.profile, s.selected.value.agent, stage.profile, env.defaultAgent) {
        s := s.(selected := Some(Pick(profile, agent)));
      }
    }
    if s.selected.None? { return Shortage(BlockedFor(stage, s)); }
    var policy := ContextPolicyOf(stage, s.selected.value.profile);
    if policy.Some? && policy.value !in env.registry.contexts { return Error; }
    if stage.id !in env.packs { return Error; }
    return Fresh(Assigned(env, stage, s.selected.value, s.considered, env.packs[stage.id]));
  }

  // ---------------------------------------------------------------- the whole plan

  /** The stage names a profile or a context policy that is not installed. */
  predicate MissingArtifact(env: Env, stage: PlanStage) {
    || (stage.profile.Some? && stage.profile.value !in env.registry.profiles)
    || (stage.contextPolicy.Some? && stage.contextPolicy.value !in env.registry.contexts)
  }

  /** What was approved, with the upstream output its own context selection entitles it to. */
  function RebindUpstream(a: Assignment, upstream: seq<UpstreamOutput>): Assignment {
    a.(context := a.context.(upstream := if a.context.includesUpstream then SortedUpstream(upstream) else []))
  }

  datatype Progress = Progress(workers: map<Id, Assignment>, resolution: Resolution)

  function Assign(p: Progress, stage: Id, a: Assignment): Progress {
    Progress(p.workers[stage := a], p.resolution.(assignments := p.resolution.assignments + [a]))
  }

  function Block(p: Progress, b: Blocked): Progress {
    p.(resolution := p.resolution.(blocked := p.resolution.blocked + [b]))
  }

  function ResolveOne(env: Env, stage: PlanStage, p: Progress): Option<Progress> {
    if !stage.kind.AgentStage? then Some(p)
    else if stage.id in env.frozen then Some(Assign(p, stage.id, env.frozen[stage.id]))
    else if stage.id in env.authorized then
      Some(Assign(p, stage.id, RebindUpstream(env.authorized[stage.id], UpstreamFor(env, stage.id))))
    else if MissingArtifact(env, stage) then Some(Block(p, Blocked(stage.id, stage.role, ArtifactNotInstalled, [], false)))
    else
      match OutcomeOf(env, stage, p.workers)
      case Error => None
      case Shortage(b) => Some(Block(p, b))
      case Fresh(a) => Some(Assign(p, stage.id, a))
  }

  function Resolving(env: Env, stages: seq<PlanStage>, n: nat): Option<Progress>
    requires n <= |stages|
  {
    if n == 0 then Some(Progress(env.frozen, Resolution([], [])))
    else
      var before := Resolving(env, stages, n - 1);
      if before.None? then None else ResolveOne(env, stages[n - 1], before.value)
  }

  function ResolutionOf(input: Input): Option<Resolution> {
    var p := Resolving(EnvOf(input), input.stages, |input.stages|);
    if p.None? then None else Some(p.value.resolution)
  }

  lemma {:induction false} ErrorStays(env: Env, stages: seq<PlanStage>, n: nat, m: nat)
    requires n <= m <= |stages|
    ensures Resolving(env, stages, n).None? ==> Resolving(env, stages, m).None?
    decreases m
  {
    if n < m { ErrorStays(env, stages, n, m - 1); }
  }

  method IndexAgents(agents: seq<Agent>) returns (index: map<Id, Agent>)
    ensures index == AgentIndex(agents)
  {
    index := map[];
    for i := 0 to |agents|
      invariant index == AgentIndex(agents[..i])
    {
      assert agents[..i + 1][..i] == agents[..i];
      index := index[agents[i].id := agents[i]];
    }
    assert agents[..|agents|] == agents;
  }

  /** `Resolve`: starts from the frozen workers, so a stage can be told apart from a peer that comes later. */
  method Resolve(input: Input) returns (r: Option<Resolution>)
    ensures r == ResolutionOf(input)
  {
    var profiles := CandidateProfiles(input.registry, input.agents);
    var agents := IndexAgents(input.agents);
    var env := Env(profiles, agents, input.registry, input.upstream, input.defaultAgent, input.frozen, input.authorized,
                   input.unknownWord, input.packs);
    var p := Progress(input.frozen, Resolution([], []));
    for i := 0 to |input.stages|
      invariant Resolving(env, input.stages, i) == Some(p)
    {
      var stage := input.stages[i];
      ErrorStays(env, input.stages, i + 1, |input.stages|);
      if !stage.kind.AgentStage? { continue; }
      if stage.id in input.frozen {
        p := Assign(p, stage.id, input.frozen[stage.id]);
        continue;
      }
      if stage.id in input.authorized {
        p := Assign(p, stage.id, RebindUpstream(input.authorized[stage.id], UpstreamFor(env, stage.id)));
        continue;
      }
      if MissingArtifact(env, stage) {
        p := Block(p, Blocked(stage.id, stage.role, ArtifactNotInstalled, [], false));
        continue;
      }
      var o := ResolveStage(env, stage, p.workers);
      match o
      case Error => return None;
      case Shortage(b) => p := Block(p, b);
      case Fresh(a) => p := Assign(p, stage.id, a);
    }
    return Some(p.resolution);
  }
}
