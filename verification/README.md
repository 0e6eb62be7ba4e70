# Verified core of the engineering orchestrator

The repository coordinates autonomous engineering work. This project models its functional
cores in Dafny and proves what they promise:

- **Work graphs** (`workgraph.dfy`, `projection*.dfy`, `workgraph_runs.dfy`, `revival*.dfy`): validation, the one
  deterministic order, the one-pass projection of every unit's state and the runnable frontier,
  the mutation gate, and whole runs of a graph under activation, child progress, holds and
  adopted revisions.
- **Plans** (`stagegraph.dfy`, `plan_compiler*.dfy`, `obligation*.dfy`, `budget*.dfy`,
  `acceptance_feature.dfy`, `ratchet.dfy`, `resolver*.dfy`): the graph laws, completing independence without
  making cycles, the canonical order, policy's role obligations, budget arithmetic, the one
  acceptance stage, the privilege ratchet over chains of revisions, and assigning workers so that
  independence really holds.
- **Messages** (`messages.dfy`, `admission*.dfy`, `inbox.dfy`): the append-only history of a scope,
  admission, supersession, replies, open decisions and inboxes.
- **Policy and authority** (`policy*.dfy`, `contract_laws.dfy`, `authority*.dfy`): rules merged into
  a contract as a join, acceptance criteria turned into obligations, and what an authorized action
  always has behind it.
- **Measurement and streaming** (`intervals.dfy`, `sweep.dfy`, `activity*.dfy`, `ledger_laws.dfy`,
  `supervision.dfy`, `stream*.dfy`): the interval sweep against counting at every instant, the
  operator's activity ledger, and the resumable event stream as a concurrent protocol.

Shared modules: `ids.dfy` (identifiers and sorting), `graphs.dfy` (paths, reachability, cycles),
`kahn.dfy` (what the counting topological sort computes), `reachability.dfy` (the three searches),
`completion.dfy` (adding edges out of one node), `folds.dfy` and `merging.dfy` (filling maps in
order, and merging in any order), `vocabulary.dfy` and `plans.dfy` (roles, capabilities, dimensions,
plan stages).

Algorithms that the source runs by updating maps, queues, slices or fields are methods and classes
here, proved against specification functions; what the source promises is then proved of those
functions. `dafny verify dfyconfig.toml` checks the whole project.

The `*_answers.dfy` modules and `policy_refusals.dfy` say what each main operation answers in terms of
its input's own fields, without the functions that compute the answer: which state and inputs a unit is
shown with, what a completed stage is, whom a stage is given, what a contract says and when there is
none, how an action stands, which records are admitted, what a ledger tells.

Conventions. An identifier is a natural number: the source only compares names for equality and
order, and every finite set of names embeds in the naturals. An empty string that means "absent" is
`None`. A digest or a derived id is a free constructor of what it is computed from. A sorted list
without repeats is modelled as the set it lists where only membership is read. An error is a
`Failure`, a `None` or a refusal value; its text is not modelled. Time is whole units.

Where a natural-looking claim is false of the code, the project gives the input and proves exactly
when the claim does hold:

- Death is not permanent (`DeathLaws.DeathIsNotPermanent`). A run leads from a state to one in which a
  unit is satisfied exactly when the records behind the unit agree (`Revivals.RevivableExactly`,
  `RevivalRuns.RunRevivesExactly`); where they disagree an activated unit never is again, whatever is
  revised (`Revivals.DisagreementIsFinal`).
- Completion can close a cycle: two reviewers that policy binds around each other's producers
  (`ObligationLaws.ReviewersInterlock`). A plan that can be ordered stays so exactly when every stage
  is clear at its turn (`PlanCompilerLaws.CompletionKeepsExactly`).
- Policy can unmeet what it has just met: an integrator added after a reviewer was bound
  (`ObligationLaws.IntegratorAddedLater`). Which obligations stay met, under one more and under the whole
  list, is `ObligationLaws.MetUnderAnother`, `ObligationLaws.MetUnderSame` and
  `ObligationLaws.ListMetExactly`.
- Policy strengthens the first stage of a role as stated and validation reads the first one in the final
  order: two reviewers are enough to be refused (`ObligationLaws.SecondReviewerRead`). When the
  finished plan meets policy is `ObligationLaws.PolicyMetInTheEnd`.
- The ratchet lets a renamed reviewer gain a permission (`Ratchet.RenamingGainsPermission`); a permission
  appears exactly on stages that are new or stated no independence (`Ratchet.PermissionGainedExactly`).
- Two criteria that differ only in surrounding space refuse a contract (`ContractLaws.PaddedTwinsRefused`);
  when criteria refuse one is `ContractLaws.AcceptanceResolvesExactly`.
- Two workers sharing one wall second are given no share of it (`BudgetLaws.OneSecondForTwo`). Wall
  seconds are conserved exactly when there is a second for every worker stage
  (`BudgetLaws.WallConserved`).
- An assignment carried over keeps the budget it was approved with, even above the ceiling
  (`BudgetLaws.CarriedOverStays`); the conservation laws are stated where nothing carried exceeds the
  bounds of its stage.

Where the code and its documentation differ, the code is followed. `drain` documents its cursor as
the last event the client received; a write that reached the client and still reported an error
leaves the cursor one event behind (`Streams.CursorLags`). `Log.Stop` documents a refusal when several
intervals are open; no log content reaches it (`ActivityLog.Log.StopInterval`). `Log.Append` accepts
the record after the largest log it can read back (`LogLaws.OutgrowsReading`), and from then on every
operation on that log is refused (`ActivityLog.Log.Append`).

## Model

| member | source | states |
|---|---|---|
| Kahn.CompleteIffAcyclic | orchestration/workgraph.go:454-495 | on a closed graph the sort places every node exactly when there is no cycle |
| Kahn.SettledExactly | orchestration/workgraph.go:481-494 | what is never placed is exactly what leads into a cycle |
| Kahn.OrderIsDependencyFirst | orchestration/workgraph.go:454-495 | a complete order lists every node once, after everything it depends on |
| Kahn.OrderIsLeast | orchestration/workgraph.go:449-495 | no dependency-first order comes before it lexicographically, so it does not depend on the input order |
| Kahn.CountDependencies | orchestration/workgraph.go:455-466 | the counters and reverse lists match the graph |
| Kahn.WalkSteps | orchestration/workgraph.go:474-488 | taking the least ready node and counting its dependents down keeps the counters true to the remaining graph and the queue sorted |
| WorkGraphs.TopologicalOrder | orchestration/workgraph.go:454-495 | succeeds exactly without a cycle, with the least dependency-first order; on failure names exactly the units that lead into a cycle |
| WorkGraphs.Validate | orchestration/workgraph.go:263-359 | accepts exactly the valid graph documents (`WorkGraphAnswers.ValidGraphExactly`), acyclicity included |
| WorkGraphs.ValidateMutation | orchestration/workgraph.go:373-405 | allows exactly a valid next revision that restates every activated unit as it is (`WorkGraphAnswers.MutationExactly`) |
| WorkGraphAnswers.ValidGraphExactly | orchestration/workgraph.go:263-359 | what a valid document is, field by field: header, bounds, known roles and kinds, dependencies inside the graph, issues apart, no cycle |
| WorkGraphAnswers.MutationExactly | orchestration/workgraph.go:373-441 | which revision may follow: the next number of the same unbound graph, valid, every activated unit with the same fields, its dependencies as a set and its kind up to the default |
| Reachability.ReachesSearch | planning/compiler.go:814-830 | the worklist search decides a dependency path of length at least one, on every graph, and terminates |
| Reachability.DependsOnTransitively | planning/graph.go:174-190 | the second worklist search decides the same relation |
| Reachability.DependsOnStage | planning/graph.go:327-338 | the recursion over a shared seen set decides it too, and leaves what it has seen closed |
| Reachability.DependsOnStageAfresh | planning/graph.go:315-338 | so it decides the relation from an empty seen set |
| ProjectionLaws.ConsumedExactly | orchestration/workgraph_projection.go:351-382 | inputs are there exactly when every dependency is satisfied, and are settled as never coming exactly when an unsatisfied one is dead |
| Projection.CurrentInputs | orchestration/workgraph_projection.go:351-382 | the loop computes it, and the output it dereferences is always there |
| Projection.SatisfiedInputsCanonical | orchestration/workgraph_projection.go:121-129 | the inputs gathered are already in canonical order |
| Projection.Decide | orchestration/workgraph_projection.go:258-343 | which state each situation is reported as, when a unit is satisfied and when it is dead, never both; what else is shown is `ProjectionAnswers.InputsShown`, `StateShown` and `ReasonShown` |
| Projection.ProjectWorkGraph | orchestration/workgraph_projection.go:231-346 | the pass over the sorted units returns the recursive projection and the sorted frontier; the two are read off the facts in `ProjectionAnswers` |
| ProjectionAnswers.InputsShown | orchestration/workgraph_projection.go:240-346 | where every dependency delivers and the unit's child can be read, the inputs shown are one entry for each dependency, ascending, with its recorded output, under the digest of exactly those entries; everywhere else none |
| ProjectionAnswers.StateShown | orchestration/workgraph_projection.go:258-328 | the state of every unit, its hold and its remediation from its facts and the states of its dependencies; the frontier holds exactly the ready ones |
| ProjectionAnswers.ReasonShown | orchestration/workgraph_projection.go:258-291 | the reason shown with each state: the least dead dependency, else the least late one, with the state it is in; the hold; what cannot be read; the replaced inputs |
| ProjectionAnswers.OnlyUnitsShown | orchestration/workgraph_projection.go:239-346 | exactly the units are shown, and the frontier is ascending without repeats |
| ProjectionAnswers.RefusalNames | orchestration/workgraph_projection.go:292-299 | a refusal of a valid graph names a unit recorded as completed without an output |
| ProjectionLaws.PassSolves | orchestration/workgraph_projection.go:240-343 | the single pass computes the recursive definition over the graph |
| ProjectionLaws.SolutionUnique | orchestration/workgraph_projection.go:240-343 | the recursive definition has one solution |
| ProjectionLaws.ProjectedMeans | orchestration/workgraph_projection.go:231-346 | the call succeeds exactly when no unit's facts contradict themselves, and returns that solution and its sorted ready units |
| ProjectionLaws.ReadyExactly | orchestration/workgraph_projection.go:258-273 | the frontier is exactly the unactivated, unheld units whose dependencies are all satisfied |
| ProjectionLaws.SatisfiedStep | orchestration/workgraph_projection.go:303-334 | a satisfied unit is an activated completed child with an output, not dead, all of its dependencies satisfied |
| ProjectionLaws.SatisfiedNotDead | orchestration/workgraph_projection.go:334-343 | satisfied and dead are disjoint |
| ProjectionLaws.UpstreamSatisfied | orchestration/workgraph_projection.go:351-382 | everything a satisfied or frontier unit depends on, however far, is satisfied |
| ProjectionLaws.DeathPropagates | orchestration/workgraph_projection.go:335-343 | everything that depends on a dead unit is dead |
| ProjectionLaws.InputsExactly | orchestration/workgraph_projection.go:351-382 | the inputs are exactly the dependencies, ascending, each with its own output |
| ProjectionLaws.NonInterference | orchestration/workgraph_projection.go:242-346 | changing one unit's facts leaves the verdict on every unit that does not depend on it |
| ProjectionLaws.ProjectionNonInterference | orchestration/workgraph_projection.go:242-346 | when neither call errors, such a unit is projected alike and stands in or out of the frontier alike |
| DeathLaws.DeadExactly | orchestration/workgraph_projection.go:335-343 | a unit is dead exactly when it, or something it depends on, is activated, unsatisfied and ended, failed, stopped or no longer on what it recorded |
| DeathLaws.InvalidatedExactly | orchestration/workgraph_projection.go:258-302 | an activated readable unit is invalidated exactly while a dependency is unsatisfied or its inputs differ from those recorded |
| DeathLaws.DeathIsNotPermanent | orchestration/workgraph_projection.go:270-291 | a dependent of a briefly unreadable unit is dead, and satisfied again once the unit reads as before |
| Revivals.RevivableExactly | orchestration/workgraph_projection.go:240-343 | later child reports can satisfy a unit exactly when every activated unit behind it recorded its dependencies and no two recorded different outputs of one unit |
| RevivalRuns.RunRevivesExactly | orchestration/workgraph_projection.go:231-346 | from every state that meets the invariant a run under the same revision reaches one in which the unit is satisfied exactly when the records behind it agree; for an activated unit the same over runs that adopt revisions |
| Revivals.DisagreementIsFinal | orchestration/workgraph_projection.go:291-302 | over every run, from any state that meets the invariant, an activated unit behind which two records disagree is never satisfied again |
| WorkGraphRuns.RunKeepsInvariant | orchestration/workgraph.go:361-405 | over every run, revisions included, the graph stays valid and the activated units are units of the graph and closed under dependencies |
| WorkGraphRuns.AdoptionPreservesProjection | orchestration/workgraph.go:373-405 | adopting an allowed revision changes the projection of no activated unit |
| WorkGraphRuns.RunFreezesActivated | orchestration/workgraph.go:373-441 | over every run an activated unit keeps its document and the digest it was activated against |
| WorkGraphRuns.ActivationIsCurrent | orchestration/workgraph_projection.go:258-302 | a unit activated with its projected digest does not start out invalidated |
| StageGraphs.ValidateStage | planning/graph.go:72-169 | accepts exactly the valid stages |
| StageGraphs.ValidateIndependence | planning/graph.go:132-168 | accepts exactly a known dimension over named peers that are workers upstream of the stage |
| StageGraphs.RefuseCycles | planning/graph.go:195-239 | refuses exactly a graph with a cycle, naming exactly the stages that lead into one |
| StageGraphs.DownstreamIntegration | planning/graph.go:315-325 | decides whether a deterministic integration depends on the stage |
| StageGraphs.ValidateAcceptanceFeature | planning/graph.go:291-311 | accepts exactly at most one carrier, a valid name, on an integration no other one consumes |
| StageGraphs.ValidateStageGraph | planning/graph.go:47-70 | accepts exactly the valid stage graphs (`StageAnswers.ValidExactly`) |
| StageAnswers.ValidExactly | planning/graph.go:47-311 | what a valid stage graph is, stage by stage over its own fields: kind, execution, dependencies, independence, the one carrier and its name, no cycle |
| PlanCompiler.ProducersExcept | planning/compiler.go:790-800 | lists the producers other than the stage that do not depend on it |
| PlanCompiler.FillStageDefaults | planning/compiler.go:531-594 | the in-place pass refuses exactly an ambiguous shorthand and otherwise completes stage after stage; what it leaves of each stage is `CompletionAnswers.WorkerCompleted` and `GateCompleted` |
| CompletionAnswers.WorkerCompleted | planning/compiler.go:531-612 | a completed worker has exactly its known capabilities and its role's floor, in order; its stated mode, else non-mutating planning for the planner and mutating for everyone else; its independence but for unstated peers; its dependencies followed by the missing peers; everything else as stated |
| CompletionAnswers.GateCompleted | planning/compiler.go:533-551 | an assurance gate without claims gets the contract's; every other gate is unchanged |
| CompletionAnswers.RefusedExactly | planning/compiler.go:564-568 | what is refused is a worker that makes the change and asks to differ from nobody in particular |
| PlanCompiler.CanonicalOrder | planning/compiler.go:620-673 | gives the least dependency-first order with tidied dependencies, and leaves what it cannot order unchanged |
| CompletionAnswers.CanonicalKeepsStages | planning/compiler.go:641-672 | the canonical form keeps each stage whole and only sorts its dependencies |
| CompletionAnswers.UnorderableStays | planning/compiler.go:627-668 | with a repeated id, a dangling dependency or a cycle the list stays as it is |
| PlanCompilerLaws.CompletionKeepsExactly | planning/compiler.go:531-612 | on any closed acyclic plan, stated peers included, completion keeps it closed and acyclic exactly when each stated peer that is no dependency yet is another stage and does not lead back to the stage at its turn |
| PlanCompilerLaws.BindsExactly | planning/compiler.go:531-612 | a shorthand is bound to exactly the producers other than the stage that do not depend on it, at that step and in the end |
| PlanCompilerLaws.BoundPeersAreDependencies | planning/compiler.go:597-612 | every peer a completed stage names is a dependency of it, and peers it stated stay as stated |
| PlanCompilerLaws.CompletedIndependenceValid | planning/graph.go:132-168 | a completed independence passes the plan law exactly when its shorthand found a producer, or every peer it states is a worker stage |
| PlanCompilerLaws.CanonicalIsDependencyFirst | planning/compiler.go:620-673 | the canonical form lists every stage once, after its dependencies |
| PlanCompilerLaws.CanonicalIgnoresInputOrder | planning/compiler.go:614-673 | the canonical form does not depend on the order the stages came in |
| PlanCompilerLaws.OrdersAgree | planning/compiler.go:620-673 | a plan and a work graph over the same graph are ordered alike |
| Completion.StaysAcyclic | planning/compiler.go:775-800 | more edges out of one node, to nodes that do not lead back to it, make no cycle |
| Obligations.ApplyRoleObligation | planning/compiler.go:300-346 | finds or adds the role's stage and strengthens it, or refuses; what it leaves is `ObligationAnswers.AppliedExactly`, when it refuses `ObligationAnswers.AppliesExactly` |
| ObligationAnswers.AppliedExactly | planning/compiler.go:300-346 | the role's first worker has its own known capabilities and the required ones, the higher trust, the stronger dimension and every peer there is but itself; all else about it, and every other stage, is unchanged |
| ObligationAnswers.AppliesExactly | planning/compiler.go:360-430 | refused exactly when independence is asked and there is nobody but the stage itself to differ from |
| ObligationAnswers.RefusedBecause | planning/compiler.go:374-430 | which of the three refusals it is |
| ObligationAnswers.MetMeans | planning/validate.go:247-305 | a requirement is met exactly when the role's first worker answers it field by field, or, without one, a permitted person stands in at a gate that states something |
| ObligationLaws.ApplyRoleObligations | planning/compiler.go:279-286 | applies the whole list in turn, or refuses at the first refusal |
| ObligationLaws.MetUnderAnother | planning/validate.go:247-305 | under an obligation for another role what was met stays met exactly when no producer is added, or the added one is named |
| ObligationLaws.MetUnderSame | planning/validate.go:247-305 | under another obligation for the same worker only the substitution permission can be lost |
| ObligationLaws.ListMetExactly | planning/compiler.go:279-346 | once the whole list is applied an obligation is found met exactly when every producer at its turn is named or can be bound and every producer added later is named |
| ObligationLaws.MetInTheEnd | planning/validate.go:247-305 | in the completed plan in canonical order a requirement is met exactly when the role's worker that order has first is strong enough |
| ObligationLaws.PolicyMetInTheEnd | planning/compiler.go:107-118 | an applied obligation is met in the finished plan exactly when its worker still comes first and it was met, or the one that comes first is strong enough |
| ObligationLaws.SomeComesFirst | planning/compiler.go:620-673 | where a role has a worker, one of them comes first in the canonical order of the completed plan |
| ObligationLaws.SecondReviewerRead | planning/validate.go:328-335 | two reviewers: the obligation is met when applied, and the finished plan is refused |
| ObligationLaws.ReviewersInterlock | planning/compiler.go:329-340 | two reviewers bound around each other's producers: completing the plan closes a cycle |
| ObligationLaws.IntegratorAddedLater | planning/compiler.go:279-324 | a reviewer, then an added integrator: what was met is not any more |
| Obligations.AddedStageIsMet | planning/compiler.go:309-324 | a stage policy adds itself always meets its obligation |
| Obligations.OnlyStrengthens | planning/compiler.go:279-298 | applying an obligation removes and weakens nothing |
| Obligations.NamedAfter | planning/compiler.go:360-417 | which producers a strengthened independence names |
| Budgets.ResolveEnvelope | planning/compiler.go:684-705 | refused exactly when the tightened ceiling cannot hold the plan; never wider than the operator's |
| BudgetLaws.AffordsExactly | planning/compiler.go:684-704 | a plan fits exactly when the operator states every bound and neither its bounds nor the template's positive ones are below the number of workers |
| BudgetLaws.TightenedExactly | planning/compiler.go:689-735 | each bound is the lesser of the operator's and a positive template bound; a cost bound appears only where there was one |
| Budgets.ShareBudget | planning/compiler.go:738-773 | rewrites each worker's bounds in place to its own within an equal share |
| BudgetLaws.SharedExactly | planning/compiler.go:738-773 | a worker's two bounds are the lesser of its own and the equal share; nothing else about any stage changes |
| Budgets.TightenedByProfile | planning/resolver.go:491-515 | every positive bound stays positive and only narrows; a retry bound stays inside the total |
| BudgetLaws.NarrowedExactly | planning/resolver.go:491-515 | each bound is the lesser of the stage's and the profile's positive one, and a retry bound is introduced only where it fits the total |
| BudgetLaws.InvocationsConserved | planning/compiler.go:684-773 | every worker resolution assigns may invoke at least once, and together at most as often as the operator's ceiling allows |
| BudgetLaws.WallConserved | planning/compiler.go:738-773 | the same of the envelope's wall seconds where there is a second for every worker stage; once every stage has its worker, exactly then |
| BudgetLaws.OneSecondForTwo | planning/compiler.go:757-770 | a plan of two workers and one second, wholly resolved: the wall bounds do not hold |
| BudgetLaws.CarriedOverStays | planning/resolver.go:158-161 | an assignment a stage already runs under keeps its invocations whatever the ceiling is now |
| AcceptanceFeature.BindAcceptanceFeature | planning/acceptance_feature.go:15-47 | succeeds exactly with one terminal integration; "none" exactly without any integration; the result passes the feature law with one carrier |
| AcceptanceFeature.ValidGraphUnbound | planning/graph.go:47-70 | every valid stage graph without a feature is one binding accepts |
| AcceptanceFeature.SomeIsFinal | planning/graph.go:315-325 | an acyclic plan with an integration has a terminal one |
| AcceptanceFeature.WithoutEchoedAcceptanceFeature | planning/acceptance_feature.go:54-66 | refused exactly when a stage states another feature; otherwise every stage without one |
| AcceptanceFeature.EchoUndoesBinding | planning/acceptance_feature.go:49-66 | dropping the echo of a bound plan gives back the plan binding started from |
| Ratchet.RevisionPrivilegeViolations | planning/validate.go:465-556 | reports exactly the violations there are, and none exactly when every surviving and every removed stage keeps what it must |
| Ratchet.AcceptedExactly | planning/validate.go:465-613 | the ratchet accepts exactly a revision to which none of the ten violations, stated on the stages' fields, applies |
| Ratchet.RevisionNeverWeakens | planning/validate.go:465-613 | an accepted revision lowers neither the strongest dimension nor the strongest trust of a role |
| Ratchet.ChainNeverWeakens | planning/validate.go:465-613 | nor does any chain of accepted revisions |
| Ratchet.ChainKeepsPeers | planning/validate.go:591-601 | a surviving stage keeps every peer that stays a stage |
| Ratchet.PermissionGainedExactly | planning/validate.go:472-520 | an accepted revision gains a permission exactly where a stage that is new, or had no independence, permits one |
| Ratchet.PermissionTraced | planning/validate.go:472-520 | over every chain a permission held was introduced at one revision and held in each since |
| Ratchet.RenamingGainsPermission | planning/validate.go:565-587 | renaming a reviewer gains it a permission; both plans are valid and the ratchet accepts |
| Resolver.CandidateProfiles | planning/resolver.go:210-228 | the installed profiles and a direct profile per unspecialized agent, sorted by id |
| Vocabulary.TrustOrdered | planning/escalation.go:133-142 | protected execution is stronger than an operator's trust, and that than none or an unknown word |
| Vocabulary.DimensionsOrdered | planning/graph.go:258-267 | human over vendor over provider kind over agent over profile over an unknown word |
| Resolver.ResolveStage | planning/resolver.go:258-355 | the search over the candidates gives the specified choice, shortage or error; what it chooses by is `ResolverAnswers.ObjectionsExactly` |
| Resolver.Resolve | planning/resolver.go:135-195 | stage by stage, frozen and authorized first, the specified resolution; its answers are read off the input in `ResolverAnswers` |
| ResolverAnswers.IndependentWorkers | planning/resolver.go:442-552 | every stage a chosen worker must differ from has a worker in the end, and under the vendor, provider-kind or agent dimension both names are there, neither is the unknown word, and they differ; under the profile dimension the profiles' id or digest differ |
| ResolverAnswers.ObjectionsExactly | planning/resolver.go:382-475 | each objection to a candidate, exactly when it holds over the fields of stage, profile, agent and the workers so far |
| ResolverAnswers.SuitsExactly | planning/resolver.go:382-475 | a candidate is eligible exactly when it escalates nothing, is trusted and able enough, has the mode and the verdict protocol, is available and stands apart from every named peer |
| ResolverAnswers.CandidatesExactly | planning/resolver.go:210-256 | the candidates are exactly the installed profiles and, as themselves, the agents no installed profile runs on |
| ResolverAnswers.ChosenWorker | planning/resolver.go:258-355 | a chosen worker is a candidate that suits, no worse than any other that does, and its assignment repeats the stage's, profile's and agent's own words |
| ResolverAnswers.PinnedWorker | planning/resolver.go:654-657 | a stage that names a profile is given the installed one of that name wherever it suits |
| ResolverAnswers.BlockedStage | planning/resolver.go:607-652 | a blocked stage names something not installed, or has no suitable candidate and gives the strongest objection; a person may stand in only for want of independence and where permitted |
| ResolverAnswers.CandidatesRecorded | planning/resolver.go:267-298 | every candidate is on record with whether it suited, and nothing else is |
| ResolverAnswers.AnswersInOrder | planning/resolver.go:152-228 | assignments and blocks come in the order of the plan, and each records its candidates by profile id |
| ResolverAnswers.CarriedOver | planning/resolver.go:158-173 | a running stage keeps its assignment; an approved one keeps all but the upstream outputs |
| ResolverAnswers.FailsExactly | planning/resolver.go:317-336 | resolution fails as a whole exactly when, at some stage's turn, the worker settled on has no context to work in |
| ResolverLaws.EveryAgentStageOnce | planning/resolver.go:135-195 | assigned and blocked stages are together the plan's agent stages, each once |
| ResolverLaws.IndependenceHoldsAtTheEnd | planning/resolver.go:442-475 | a freshly chosen worker stands apart, in the required dimension, from every named peer's final worker, and meets the stage |
| ResolverLaws.InputKeeps | planning/resolver.go:135-195 | the environment resolution builds from its input is one these laws hold in |
| ResolverLaws.FreshOutcome | planning/resolver.go:382-433 | a chosen profile is eligible, its worker meets all that is asked, and it is the best eligible one |
| ResolverLaws.SelectedIsBest | planning/resolver.go:654-667 | the choice is the default agent's least profile, else the least profile by id; none exactly when none is eligible |
| ResolverLaws.BlockedMeansNoneEligible | planning/resolver.go:301-303 | a blocked stage had no eligible candidate |
| ResolverLaws.WorkforceOrderIrrelevant | planning/resolver.go:210-228 | however the agents are listed, the whole resolution is the same |
| ResolverLaws.WorkersStay | planning/resolver.go:145-195 | a worker once assigned is the one the plan ends with |
| Admissions.AdmitMessages | orchestration/communication_admission.go:29-65 | the whole report is admitted draft by draft, or refused; which, and as what records, is `AdmissionAnswers.AdmittedExactly` |
| AdmissionAnswers.AdmittedExactly | orchestration/communication_admission.go:29-113 | a report is admitted exactly when it, its scope and every draft fit, corrections and replies included, and each record then says what its draft says with the runtime's own identity, source, subject, route and time |
| Admissions.Live | orchestration/communication_admission.go:173-185 | keeps exactly the records no record supersedes, in order |
| AdmissionAnswers.LivingExactly | orchestration/communication_admission.go:173-185 | live are exactly the records no record of the history corrects |
| Admissions.OpenDecisions | orchestration/communication_admission.go:191-199 | the live decision requests, in order |
| AdmissionAnswers.OpenExactly | orchestration/communication_admission.go:187-199 | a decision is open exactly while its request is live |
| AdmissionLaws.RunIsSound | orchestration/communication_admission.go:29-113 | every reachable history has unique ids, corrections of live records of the same kind and unit, replies to live requests addressed to the writer, and stays within its bound |
| AdmissionLaws.OneLivePerChain | orchestration/communication_admission.go:96-111 | two live records of one chain are the same record |
| AdmissionLaws.TipIsLive | orchestration/communication_admission.go:53-63 | every chain ends in a live record of its kind and source unit |
| AdmissionLaws.RootLeadsToTip | orchestration/communication_admission.go:96-111 | back to the root and forward again ends at the same tip, so chains are linear |
| AdmissionLaws.LivePerRoot | orchestration/communication_admission.go:173-185 | there are as many live records of a kind and unit as chains of it |
| AdmissionLaws.DecisionsStayOpen | orchestration/communication_admission.go:187-199 | over any run open decisions never decrease, and each stays open itself or through a correction by its own unit |
| AdmissionLaws.RepliesAnswerRequests | orchestration/communication_admission.go:82-95 | whatever replies, replies to a collaboration request addressed to its unit and goes back to the requester |
| Messages.RoutesAreFixedByKind | orchestration/communication.go:406-421 | who a valid record can reach follows from its kind |
| Inboxes.InboxFor | orchestration/communication_admission.go:137-162 | the newest entries of each list, the rest counted in full, and one update per other unit, its latest |
| Inboxes.Inbox.Latest | orchestration/communication_admission.go:164-170 | shows the newest, counts every other, and leaves none out while there is room |
| Inboxes.CurrentFindingsApply | orchestration/communication_admission.go:151-154 | a finding shown as current is bound to the unit's exact subject |
| AdmissionAnswers.FiledExactly | orchestration/communication_admission.go:140-158 | which live record is on which of the three lists, in both directions: a finding put to the unit is current exactly when it speaks of the unit's exact subject |
| AdmissionAnswers.LatestUpdateExactly | orchestration/communication_admission.go:142-149 | the update shown of another unit is the last live one it made |
| Streams.NeverSkips | controlplane/stream.go:109-204 | over every interleaving the client holds each event after its start up to its last id, once and in order, and a snapshot reflects at least its position |
| Streams.QuietMeansCaughtUp | controlplane/stream.go:177-203 | with nothing in flight a tailing connection has brought the client to its cursor |
| Streams.CursorLags | controlplane/stream.go:74-96 | a write that reaches the client and still fails ends the connection with the client one event past the cursor |
| Streams.CursorLagsSomewhere | controlplane/stream.go:86-96 | there is a run with an event to write, from which a connection can end that way |
| StreamAnswers.CursorExactly | controlplane/stream.go:45-62 | the reconnect header decides where a stream starts, without one the stated position, without either it starts afresh |
| StreamAnswers.PageExactly | runtime/journal.go:624-636 | a page holds the events after the position, as many as asked for, and says whether that was all |
| StreamAnswers.CanBeBroughtUpToDate | controlplane/stream.go:109-204 | after any run the client can lose its connection, come back, and end holding every event from where it started to the end of the journal |
| StreamDrain.Handler.EventsPage | runtime/journal.go:624-636 | the extra row tells whether there are more |
| StreamDrain.Handler.WritePage | controlplane/stream.go:90-96 | the cursor follows each frame; a failed write leaves it at the last event surely sent |
| StreamDrain.Handler.Drain | controlplane/stream.go:83-101 | always ends; keeps serving only at the end of the journal as last read, with everything up to the cursor sent in order |
| StreamDrain.FramesAdvance | controlplane/stream.go:83-101 | a client that receives the frames of a stretch of the journal holds exactly that stretch |
| Sweep.ComputeConcurrency | benchmark/intervals.go:29-68 | peak, union, overlap and sum are what counting at every instant says |
| Sweep.PeakIsMaximum | benchmark/intervals.go:52-66 | the peak is the largest number of spans covering any instant |
| Sweep.ActiveNeverNegative | benchmark/intervals.go:52-66 | the running count is never negative and ends at zero |
| Sweep.SweptWhole | benchmark/intervals.go:52-66 | the gaps add up to the measure of the instants covered at least so often |
| Sweep.DurationsAreCoverage | benchmark/intervals.go:31-40 | the durations add up to the total coverage |
| SweepAnswers.SweepCounts | benchmark/intervals.go:29-68 | what a sweep reports, as numbers of spans and instants: all spans, those that end no later than they start, and the instants at which at least one and at least two of the others are active |
| SweepAnswers.DescribedOnce | benchmark/intervals.go:29-68 | a list of spans has one such report |
| SweepAnswers.OneSpan | benchmark/intervals.go:29-68 | one span is its own union and sum, with a peak of one and no overlap |
| Intervals.SortedEdgesUnique | benchmark/intervals.go:42-51 | whatever an unstable sort does with equal edges, the sorted list is the same |
| Activity.Folding.FoldStart | benchmark/activity.go:179-203 | accepts exactly a well-formed, new, content-identified entry |
| Activity.Folding.FoldStop | benchmark/activity.go:205-218 | accepts exactly a stop strictly after an open entry's start |
| Activity.Folding.FoldAudit | benchmark/activity.go:220-238 | accepts exactly a first audit of a relay by someone else with evidence |
| Activity.Overlaps | benchmark/activity.go:242-251 | reports exactly when some neighbour does not follow |
| Activity.OperatorMismatch | benchmark/activity.go:253-266 | reports exactly when not all entries are by the first one's operator |
| Activity.Fold | benchmark/activity.go:139-156 | the ledger sorted by start, and nothing to report exactly when the log is accepted |
| ActivityAnswers.AcceptedExactly | benchmark/activity.go:139-266 | a log is accepted exactly when every record fits the records before it, no two intervals overlap, and one operator performs them all |
| ActivityAnswers.LedgerTells | benchmark/activity.go:139-238 | the ledger is by start and has one interval for each started entry, as its own start, stop and audit say |
| LedgerLaws.AcceptedIsOneStream | benchmark/activity.go:129-156 | an accepted log's intervals are pairwise disjoint, only the last can be open, one operator performs all |
| LedgerLaws.AttentionIsConserved | benchmark/supervision.go:53-90 | attended and unattended time of both arms equal both the sum and the union of the sweep; no overlap, peak at most one |
| LedgerLaws.DisjointCoversOnce | benchmark/activity.go:240-251 | disjoint intervals cover no instant twice |
| ActivityLog.StartAppends | benchmark/activity_log.go:82-111 | an accepted start opens an interval at the very end of the ledger |
| ActivityLog.StopEndsOne | benchmark/activity.go:205-218 | an accepted stop ends one interval and moves no other |
| ActivityLog.Log.Append | benchmark/activity_log.go:82-103 | writes exactly when the log is readable and the longer log is consistent; otherwise unchanged |
| LogLaws.StartTakenExactly | benchmark/activity_log.go:82-111 | a consistent log takes a start exactly when it is well formed, nothing is open, and it follows all there is under the same operator |
| LogLaws.StopTakenExactly | benchmark/activity.go:205-218 | a consistent log takes a stop exactly when the entry is open and started earlier |
| LogLaws.OutgrowsReading | benchmark/activity_log.go:82-103 | a log of the largest readable size takes one record more |
| ActivityLog.Log.StartInterval | benchmark/activity_log.go:106-111 | a written start appends one open interval, and none was open |
| ActivityLog.Log.StopInterval | benchmark/activity_log.go:115-135 | with no id named, ends the open interval and leaves none open; "several are open" is never reached |
| Supervisions.Supervision.CountIntervention | benchmark/supervision.go:92-109 | counts one ended interval under its kind |
| Supervisions.Summarize | benchmark/supervision.go:53-90 | the arm's times, counts and bounds; relays are audited plus self-reported, and the basis says "audited" only when all are |
| Supervisions.BoundsMean | benchmark/supervision.go:62-75 | the arm's intervals lie between its first start and last end, which are attained |
| ActivityAnswers.TimeByKind | benchmark/activity.go:40-45 | unattended time is the time of waiting, and attended time that of the seven other kinds together |
| ActivityAnswers.TimeOfKindAdds | benchmark/supervision.go:78-84 | a kind's time is what the arm's intervals of that kind last |
| ActivityAnswers.CountsExactly | benchmark/supervision.go:92-109 | each count is how many of the arm's intervals are of its kind |
| ActivityAnswers.RelaysExactly | benchmark/supervision.go:101-107 | so is each count of one kind of relay |
| ActivityAnswers.SummaryCounts | benchmark/supervision.go:53-109 | each count of a summary is how many ended intervals of its kind the arm has; relays by kind and by audit; the open ones |
| ActivityAnswers.SummaryTimes | benchmark/supervision.go:53-90 | each kind's time, and attended and unattended time as their sums |
| ActivityAnswers.SummaryBounds | benchmark/supervision.go:62-75 | the bounds of a summary are exactly the first start and the last end there are |
| ActivityAnswers.OperatorExactly | benchmark/supervision.go:58-61 | the operator shown is that of the arm's last interval |
| SortedUnique.UniqueStrings | policy/compiler.go:420-428 | compacts in place to each run's first value |
| SortedUnique.Canonical | policy/compiler.go:413-428 | sorting and compacting lists the set of the members |
| PolicyCompiler.Resolution.AddRuleEffect | policy/compiler.go:265-316 | the resolution after one rule is the merge of its effect, or a refusal |
| PolicyCompiler.Resolution.AddEngineeringRequirements | policy/compiler.go:557-613 | roles, capabilities and gates merge as specified, or a refusal |
| PolicyCompiler.Resolution.AddAcceptanceObligations | policy/compiler.go:476-493 | each non-blank criterion becomes a material obligation, or a conflict refuses |
| ContractLaws.CompiledExactly | policy/compiler.go:353-380 | a resolved policy compiles exactly when no action is both permitted and prohibited, every claim an invariant, obligation, gate or condition names is defined, nothing is permitted anew, and what is material can be discharged |
| ContractLaws.MaterialIsDischarged | policy/compiler.go:499-521 | no material obligation of a contract that can authorize anything is left without a defined claim to discharge it |
| PolicyCompiler.NormalizedFacts | policy/compiler.go:163-187 | refused exactly on a foreign subject or a repeated id; otherwise by ascending id |
| PolicyCompiler.Compile | policy/compiler.go:35-125 | the specified contract, or a refusal: when is `PolicyRefusals.CompilesExactly`, what it says `PolicyAnswers.ContractIsRuled` and `ObligationsAreRuled` |
| PolicyRefusals.CompilesExactly | policy/compiler.go:35-187 | when a contract is compiled, over the fields of the input alone: complete, one subject, the rules that apply understood and in agreement, criteria apart, nothing both permitted and prohibited, every mentioned claim defined, nothing permitted anew, everything material dischargeable where anything can be authorized |
| PolicyRefusals.RulesResolveExactly | policy/compiler.go:54-69 | rules resolve exactly when those that apply contradict neither each other nor themselves nor an unknown fact, and use only known words |
| PolicyAnswers.EffectsExactly | policy/compiler.go:189-209 | a rule's effect is compiled in exactly when some fact has its condition's key and value and everything else the condition states |
| PolicyAnswers.ContractIsRuled | policy/compiler.go:265-351 | permissions, prohibitions, capabilities, claims, invariants, conditions, gates and role requirements are exactly what the rules that apply state, taken together |
| PolicyAnswers.ObligationsAreRuled | policy/compiler.go:260-263 | obligations are exactly those of rules that apply, of unknown facts and of criteria that are not blank, each saying what its origin says |
| PolicyAnswers.ContractIsFor | policy/compiler.go:93-119 | identity, subject, policy, previous revision, criteria and facts are the input's own, sorted |
| PolicyLaws.MergeRolesJoins | policy/compiler.go:642-667 | merging role requirements is commutative and associative |
| PolicyLaws.EffectPairCommutes | policy/compiler.go:265-316 | two rules in either order leave the same state or both fail |
| PolicyLaws.RulesInAnyOrder | policy/compiler.go:54-69 | the matching rules in any order succeed or fail alike with the same state |
| Merging.AnyOrder | policy/compiler.go:54-69 | a fold of commuting steps depends only on which elements there are |
| ContractLaws.RuleNeverWeakens | policy/compiler.go:535-556 | one more rule weakens nothing and permits no substitution a role had refused |
| ContractLaws.AddingARuleNeverWeakens | policy/compiler.go:265-351 | adding a rule under a new id, where both compile: roles, gates, prohibitions, conditions, claims and invariants stand or are strengthened, obligations stand (a criterion's own may ask more claims), and permissions grow by exactly those the rule states |
| ContractLaws.NewRuleEffects | policy/compiler.go:54-69 | a new rule, wherever its id sorts, adds its own effect where some fact meets its condition field by field, and nothing otherwise |
| ContractLaws.CriteriaAreObliged | policy/compiler.go:476-521 | every non-blank criterion is a material obligation with defined claims, at least one where something can be authorized |
| ContractLaws.AcceptanceResolvesExactly | policy/compiler.go:476-493 | criteria refuse exactly when two trim to the same text, or one meets an obligation of its identity that says anything else |
| ContractLaws.PaddedTwinsRefused | domain/types.go:186-189 | two criteria that differ only in surrounding space are refused together and taken one by one |
| ContractLaws.InputOrderIrrelevant | policy/compiler.go:33-35 | the contract does not depend on how facts and criteria are listed |
| Authority.ValidateContractReferences | authority/authority.go:109-139 | accepts exactly discharged, defined and unambiguous references |
| Authority.RequiredClaimsFor | authority/authority.go:177-190 | the condition's claims and those that discharge material obligations |
| Authority.ClassifyClaim | authority/authority.go:227-270 | in any order of bundles and items: a bound failure blocks, else a bound pass satisfies, else staleness, else missing; what shows which is `AuthorityAnswers.ClaimsListed` |
| Authority.Evaluate | authority/authority.go:30-77 | the specified decision, refused exactly on invalid input: its lists and its status are `AuthorityAnswers.ClaimsListed`, `RestListed` and `StatusExactly` |
| AuthorityAnswers.ClaimsListed | authority/authority.go:199-276 | a required claim blocks exactly when a valid, failed item of its class, bound to the contract's subject, identity and policy, bears on it from an eligible producer; else is satisfied by a passed one, else stale by a stale one, else missing |
| AuthorityAnswers.RestListed | authority/authority.go:55-66 | a permission that is not there and an unavailable capability block, an unknown capability is missing, and nothing else is listed |
| AuthorityAnswers.StatusExactly | authority/authority.go:278-295 | which of the five statuses a decision has, from the contract and the items alone |
| AuthorityAnswers.BasisListed | authority/authority.go:145-151 | the decision keeps the revision of every bundle given |
| AuthorityAnswers.EvaluatedExactly | authority/authority.go:79-143 | which inputs are evaluated at all, over their fields |
| AuthorityLaws.AuthorizedExactly | authority/authority.go:278-295 | authorized exactly when permitted, not prohibited, capable, and every required claim passed by a valid, exactly bound item from an eligible producer and failed by none |
| AuthorityLaws.PassingItem | authority/authority.go:227-260 | a pass is a valid, passed item of the required class in a bundle with the contract's subject, identity and policy, from an eligible producer |
| AuthorityLaws.ForeignEvidenceIgnored | authority/authority.go:272-276 | evidence bound elsewhere changes the state of no claim |
| AuthorityLaws.AuthorizedMeansAccepted | authority/authority.go:167-190 | under a compiled contract an authorized action is permitted, and every non-blank criterion is discharged by proven claims |
| AuthorityLaws.CompiledReferencesDefined | authority/authority.go:109-139 | a compiled contract that can authorize anything passes the evaluator's own check |

## Left out

- WorkGraphs.TopologicalOrder: stated for distinct unit ids, as graph validation establishes them before it sorts.
- Projection.ProjectWorkGraph: stated for distinct unit ids, because only validated graphs are projected.
- StageGraphs.RefuseCycles: stated for distinct stage ids, which stage-graph validation establishes before it looks for cycles.
- BudgetLaws.InvocationsConserved: assumes that assignments carried over are inside their stage's bounds, as `BudgetLaws.CarriedOverStays` shows it must.
- BudgetLaws.WallConserved: makes the same assumption.
- RevivalRuns.RunRevivesExactly: any report may follow any other for an activated child; which reports a worker can really make after an earlier one is the runtime's, which is not part of this model.
- SHA-256, canonical JSON and schema validation: digests and derived ids are free constructors, and encoding a well-formed value always succeeds.
- The SQLite store, sockets, HTTP handling, templates, tokens and files: the journal is an append-only sequence, the log file a sequence of records.
- Prose bounds, UTF-8 checks, notes, evidence digests beyond being present, and the texts of errors, reasons and rationales.
- Float seconds: durations are whole units of time.
- Remediation epochs and re-activation (`orchestration/remediation.go`), and copying findings across scopes (`DeliverFinding`).
- Registry loading, instruction packs, context compilation: which stages' contexts compile, and whether they select upstream outputs, is an input of the resolver; the classes listed beside an independence binding and the selection reason are not modelled.
- Human-substitution conversion and graphs bound to an objective plan: they enter only as hypotheses that exclude them.
- The rest of plan validation (claims a gate references, envelope and revision identity checks), capability and gate obligations, and the compiler's choice of base stages.
- Between obligations and completion the compiler adds capabilities, gates and an assurance gate and prefers a profile; none of them changes a worker's trust, independence or dependencies. `ObligationLaws.MetInTheEnd` holds of any stage list, `ObligationLaws.PolicyMetInTheEnd` of the list the role obligations leave.
- Rule ids kept beside permissions, prohibitions and references, and the `Statement` texts of roles and gates: they appear only in error and explanation texts.
- The strings "permission:..." and "capability:..." in a decision's lists are distinct from every claim id in the model; in the source a claim of that name would be read as a claim by the last branch of `statusFor`.
- The validity of a unit's recorded inputs (`WorkUnitInputs.Validate`), counts of units by state, and other small projections and enumerations, which would add only easy members.
- Stage views: the source copies the fields the graph laws read; the model reads them from the stage itself.
- Intervals and supervision held by pointer in maps are values in maps here; two entries never share one.
