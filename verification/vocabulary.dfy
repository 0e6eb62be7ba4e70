/**
  The closed vocabularies plans, policies and contracts share, and the strength orders over
  them. A value outside a vocabulary is representable, because the source accepts any string
  and refuses the ones it does not know.
 */
module Vocabulary {
  import opened Ids

  datatype Role =
    | ProductArchitect | SystemArchitect | Planner | Implementer | Tester
    | SecurityReviewer | Reviewer | Integrator | ReleaseReviewer
    | UnknownRole(name: Id)

  predicate KnownRole(role: Role) {
    !role.UnknownRole?
  }

  predicate ProducesReviewVerdict(role: Role) {
    role.SecurityReviewer? || role.Reviewer? || role.ReleaseReviewer?
  }

  /** The producing roles: those a reviewer has to be independent of. */
  predicate ProducesMaterialChange(role: Role) {
    role.Implementer? || role.Tester? || role.Integrator?
  }

  datatype Capability =
    | RequirementsAnalysis | ArchitectureReasoning | RepositoryAnalysis
    | CodeChange | Verification | SecurityReview
    | UnknownCapability(name: Id)

  predicate KnownCapability(capability: Capability) {
    !capability.UnknownCapability?
  }

  datatype Trust = Unstated | OperatorTrusted | Protected | UnknownTrust(name: Id)

  function TrustStrength(trust: Trust): nat {
    match trust
    case Protected => 2
    case OperatorTrusted => 1
    case _ => 0
  }

  /** Protected execution is more than an operator's trust, and that is more than none; an unknown word is none. */
  lemma TrustOrdered(name: Id)
    ensures TrustStrength(Protected) > TrustStrength(OperatorTrusted) > TrustStrength(Unstated) == TrustStrength(UnknownTrust(name))
  {
  }

  datatype Dimension =
    | AgentProfileDimension | ExecutionAgentDimension | ProviderKindDimension | VendorFamilyDimension
    | HumanDimension
    | UnknownDimension(name: Id)

  predicate KnownDimension(dimension: Dimension) {
    !dimension.UnknownDimension?
  }

  function DimensionStrength(dimension: Dimension): (strength: int)
    ensures -1 <= strength <= 4
  {
    match dimension
    case AgentProfileDimension => 0
    case ExecutionAgentDimension => 1
    case ProviderKindDimension => 2
    case VendorFamilyDimension => 3
    case HumanDimension => 4
    case UnknownDimension(_) => -1
  }

  /** A human is further from a worker than another vendor is, and so on down to another profile of the same agent. */
  lemma DimensionsOrdered(name: Id)
    ensures DimensionStrength(HumanDimension) > DimensionStrength(VendorFamilyDimension) > DimensionStrength(ProviderKindDimension)
    ensures DimensionStrength(ProviderKindDimension) > DimensionStrength(ExecutionAgentDimension) > DimensionStrength(AgentProfileDimension)
    ensures DimensionStrength(AgentProfileDimension) > DimensionStrength(UnknownDimension(name))
  {
  }

  datatype Independence = Independence(dimension: Dimension, differentFrom: seq<Id>, humanSubstitutionPermitted: bool)

  datatype Action = Action(kind: Id, target: Id)

  datatype ExecutionKind = DefaultExecution | ProviderExecution | IntegrationCompose | UnknownExecution(name: Id)

  predicate KnownExecutionKind(kind: ExecutionKind) {
    !kind.UnknownExecution?
  }

  /** The kind with its default applied. */
  function EffectiveExecutionKind(kind: ExecutionKind): ExecutionKind {
    if kind.DefaultExecution? then ProviderExecution else kind
  }

  datatype InvocationMode = Mutating | NonMutatingPlanning | OtherMode(name: Id)
}
