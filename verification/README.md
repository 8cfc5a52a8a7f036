# The engines of `core_runtime`, verified

A Dafny model of the deterministic engines and state machines under `rumi_ai_1_10/core_runtime`, with proofs about
all their inputs and all their runs. `dafny verify dfyconfig.toml` checks the project. Loops and objects of the
source are loops and objects here, each proved to compute a function or a step of a state machine; the theorems are
lemmas about those.

| files | subject |
|---|---|
| `Orders`, `Texts`, `Flows` | strings in code point order, `sorted`, permutations; `strip` and decimal numbers; flow steps |
| `Precedence` | dependency graphs: maximal orders, cycles, least-first emission |
| `DependencyResolver`, `LoadOrder` | load order of packs and its validator |
| `StepOrder`, `FlowLoader`, `StepSort` | order of the steps of a flow |
| `FlowOverrides` | which file's definition of a flow wins |
| `YamlLimits` | the two size guards on parsed YAML, on object graphs with sharing and cycles |
| `FlowModifier`, `ModifierLaws`, `ModifierOrder`, `ModifierDeterminism`, `ModifierPhases`, `ModifierSwaps`, `ModifierListOrder`, `ModifierActions` | the rewriting engine for step lists |
| `PrincipalChain`, `HierarchicalGrant`, `CapabilityGrants` | chains of principals, intersection of configurations, grants |
| `FlowScheduler`, `ScheduleEntry` | the scheduler as a protocol of lock-sized steps; when an entry is due |
| `FunctionRegistry` | one primary map and three indexes |
| `CapabilityInstaller` | the life of handler candidates |
| `Approvals`, `ApprovalManager` | approval records, versions, rollbacks, verification |
| `RateLimiter` | sliding windows |
| `DockerMemory`, `DockerContainers` | memory sizes; the table of active containers |
| `EgressProtocol` | framed messages and bounded reading |
| `VariableResolver` | references in flow values |

## Where the code differs from what is said about it

The model follows the code; each point is proved or shown by an example.

- `flow_modifier.py:42-44` promises determinism, but the result can depend on how the modifiers are listed
  (`ModifierListOrder.ListOrderMattersWithInterference`). For two accepted modifiers with different ids it does not, on any
  flow, if and only if they fit (`ModifierListOrder.PairOrderExactly`): appends, and a pair of different kinds, always do;
  two injections on one side if their targets are the same or `ModifierSwaps.GroupsFit` holds, which for named targets says
  that neither injects the other's; two replacements or removals if `ModifierSwaps.SinglesFit` holds. A longer list may
  be reordered as far as the pairs that change places fit (`ModifierListOrder.ListOrderIrrelevant`); for injections on one
  side of named steps, with any appends, this is exact for lists of any length (`ModifierListOrder.InjectionListsExactly`). The schedule of a flow does not survive (`flow_modifier.py:347-357`).
- A phase listed twice emits its steps twice (`StepSort.EveryStepPerPhase`); `StepSort.PermutationIff` is the exact condition.
- The stack guard counts dict keys, its recursive twin does not (`YamlLimits.StackIsStrictlyStricter`).
- A permission id registered twice is lost when its second owner goes (`FunctionRegistry.OverwrittenPermissionIsLost`);
  `FunctionRegistry.PermsStayCompleteIff` says exactly when nothing is lost. An alias that two functions declare is lost when
  its owner goes (`FunctionRegistry.SharedAliasIsLost`, `FunctionRegistry.AliasesStayCompleteIff`).
- A grant after `revoke_all` enables the principal again with all its earlier permissions (`CapabilityGrants.GrantUndoesRevokeAll`).
- A stop between claim and submission leaves a flow marked as running for good (`FlowScheduler.StopCanStrand`);
  `FlowScheduler.StrandedExactly` names the steps that do it, `FlowScheduler.StrandedInTheEnd` does so for whole runs.
- The minute key of cron entries is not injective (`Schedules.KeysCollideExactly`), so dates can be lost
  (`Schedules.MidnightOnTheFirstIsLost`); `Schedules.PassedOverExactly` says when, in terms of schedule and clock.
- The rate limiter reads the clock before it takes the lock. It is the sliding window it promises to be, for every limit
  and every mix of calls, if and only if the readings of a pack, in the order of the lock, are orderly
  (`RateLimiter.IdealExactly`): none gets out of date and recent again, and none is out of date behind an older one that
  is not. The limit itself asks for less: it is kept if and only if no reading comes within a minute of one that was out of
  date before it (`RateLimiter.LimitExactly`). A clock that never goes back is enough for both
  (`RateLimiter.TickingIsOrderly`); `RateLimiter.ClockMatters` is a run that exceeds the limit.
- `docker stop` clears the table whatever its exit code, so the limit of five bounds the table and not the runs in
  flight (`DockerContainers.InFlightUnbounded`). It bounds these as long as no stop returns before the run it stops, and
  is missed by at most the number of such stops (`DockerContainers.ListedExactly`, `DockerContainers.InFlightBounded`).
- A rejection can be undone by a development-mode approval that looked before it (`Approvals.AutoApproveAndBlocked`).
- A verification can say yes about a pack that is marked modified meanwhile (`Approvals.StaleYes`): if and only if the last
  thing recorded between its two looks is an update to other hashes, which the files have (`Approvals.StaleExactly`).
- Reference chains may be one lookup longer than `max_depth` (`VariableResolver.ChainResolvedExactly`).

## Model

| member | source | states |
|---|---|---|
| DependencyResolver.ExtractDependencies | rumi_ai_1_10/core_runtime/dependency_resolver.py:56-122 | The declared dependencies in order of first mention, each once, over all the places and formats a manifest may use |
| DependencyResolver.DeclaredExactly | rumi_ai_1_10/core_runtime/dependency_resolver.py:56-122 | Which fields and formats name a dependency: texts, pack_id of dicts and keys in depends_on, texts and keys in dependencies, texts in the list of required packs |
| DependencyResolver.BuildTypeToPacks | rumi_ai_1_10/core_runtime/dependency_resolver.py:125-150 | Type to packs, exactly the packs with a component that provides the type |
| DependencyResolver.CollectComponentRequires | rumi_ai_1_10/core_runtime/dependency_resolver.py:153-183 | Exactly the packs linked to a pack by a required component type, itself left out |
| DependencyResolver.AddEdges | rumi_ai_1_10/core_runtime/dependency_resolver.py:230-251 | One pack's dependencies become edges of the installed part of the graph, the in-degrees stay exact, the rest is reported missing |
| DependencyResolver.BuildGraph | rumi_ai_1_10/core_runtime/dependency_resolver.py:214-251 | Strict mode stops exactly when some declared or component dependency is not installed, naming one of the first such pack; otherwise the edge lists and counters represent the dependency graph |
| DependencyResolver.Release | rumi_ai_1_10/core_runtime/dependency_resolver.py:261-264 | The inner loop of Kahn's algorithm keeps the counters exact and pushes exactly the packs that became ready |
| DependencyResolver.EmitOne | rumi_ai_1_10/core_runtime/dependency_resolver.py:258-264 | One turn of the heap loop emits the least ready pack |
| DependencyResolver.Emit | rumi_ai_1_10/core_runtime/dependency_resolver.py:253-264 | The heap loop computes the least-first emission of the graph |
| Precedence.LeastFirstCorrect | rumi_ai_1_10/core_runtime/dependency_resolver.py:253-264 | Least-first emission is a maximal grounded order, and lexicographically the least of all of them |
| Precedence.LeftoverExactly | rumi_ai_1_10/core_runtime/dependency_resolver.py:266-267 | What any maximal grounded order leaves out is exactly what lies on or downstream of a cycle |
| Precedence.CompleteIffAcyclic | rumi_ai_1_10/core_runtime/dependency_resolver.py:266-282 | A maximal order is complete exactly when there is no cycle |
| Precedence.MaximalAgree | rumi_ai_1_10/core_runtime/dependency_resolver.py:258-267 | All maximal orders of a graph emit the same packs |
| DependencyResolver.Order | rumi_ai_1_10/core_runtime/dependency_resolver.py:253-282 | Order, soft order or circular error as the outcome of the graph says |
| DependencyResolver.ResolveLoadOrder | rumi_ai_1_10/core_runtime/dependency_resolver.py:186-282 | The whole function: a strict missing error exactly when something is missing, otherwise the outcome of the dependency graph |
| DependencyResolver.GraphIgnoresDictOrder | rumi_ai_1_10/core_runtime/dependency_resolver.py:226-251 | The graph does not depend on the iteration order of the packs dict |
| LoadOrder.AcyclicLoadOrder | rumi_ai_1_10/core_runtime/dependency_resolver.py:253-282 | Without cycles every installed dependency comes first, and no other such order is lexicographically smaller, in both modes |
| LoadOrder.DependenciesLoadFirst | rumi_ai_1_10/core_runtime/dependency_resolver.py:186-282 | From the manifests on: without cycles an installed pack that another one names, or that provides a component type it requires, is loaded before it |
| LoadOrder.CircularErrorExactly | rumi_ai_1_10/core_runtime/dependency_resolver.py:266-280 | Outside soft mode the circular error is raised if and only if there is a cycle other than a self-loop, and lists in order exactly the packs on or downstream of one |
| LoadOrder.SoftLoadOrder | rumi_ai_1_10/core_runtime/dependency_resolver.py:268-274 | Soft mode always returns every pack once: a dependency-respecting, inextensible prefix, then the packs on or downstream of cycles alphabetically |
| LoadOrder.OutcomeIgnoresDictOrder | rumi_ai_1_10/core_runtime/dependency_resolver.py:186-282 | Reordering the packs dict does not change the outcome |
| LoadOrder.Inspect | rumi_ai_1_10/core_runtime/dependency_resolver.py:310-339 | The validator's copy of the graph construction: self dependencies and missing ones reported exactly, the same graph built |
| LoadOrder.Cyclic | rumi_ai_1_10/core_runtime/dependency_resolver.py:341-355 | The validator's copy of Kahn's algorithm leaves the same packs over |
| LoadOrder.ValidateDependencies | rumi_ai_1_10/core_runtime/dependency_resolver.py:289-358 | The issues: those found while building the graph, then the circular one if anything is left over |
| LoadOrder.ValidatorAgrees | rumi_ai_1_10/core_runtime/dependency_resolver.py:289-358 | A circular issue with packs c is reported if and only if resolving raises the circular error with c; a missing issue if and only if strict resolving raises the missing error |
| Orders.PopLeast | rumi_ai_1_10/core_runtime/dependency_resolver.py:259 | heappop takes the least element |
| Orders.SortedList | rumi_ai_1_10/core_runtime/dependency_resolver.py:267 | sorted, over a set of strings, in code point order |
| Orders.StrLessExactly | rumi_ai_1_10/core_runtime/dependency_resolver.py:267 | Strings compare by the code point at the first difference, a proper beginning first |
| FlowLoader.Edges | rumi_ai_1_10/core_runtime/flow_loader.py:989-1001 | in_degree counts, adjacency repeats, exactly the same-group dependencies, repetitions included |
| FlowLoader.NumberSteps | rumi_ai_1_10/core_runtime/flow_loader.py:987 | id_to_order is the position in base order |
| FlowLoader.Round | rumi_ai_1_10/core_runtime/flow_loader.py:1010-1020 | One round empties the queue of exactly the ready steps, in base order, and queues exactly those that become ready |
| FlowLoader.KahnRounds | rumi_ai_1_10/core_runtime/flow_loader.py:1003-1020 | All rounds together give the layers of the group |
| FlowLoader.TopoOrder | rumi_ai_1_10/core_runtime/flow_loader.py:984-1020 | The topological order of a group is its layers, each in base order |
| FlowLoader.SortPhase | rumi_ai_1_10/core_runtime/flow_loader.py:977-1032 | The topological order if it is complete, otherwise the group as it was |
| FlowLoader.GroupByPhase | rumi_ai_1_10/core_runtime/flow_loader.py:963-966 | Steps are collected by phase in sorted order |
| FlowLoader.SortSteps | rumi_ai_1_10/core_runtime/flow_loader.py:921-1034 | The method computes the specification the lemmas below are about |
| StepOrder.WaitingIffChain | rumi_ai_1_10/core_runtime/flow_loader.py:1010-1020 | A step waits after k rounds if and only if a chain of k dependencies starts at it |
| StepOrder.LayersCompleteIffAcyclic | rumi_ai_1_10/core_runtime/flow_loader.py:1022-1032 | The length test recognises exactly the acyclic groups |
| StepOrder.SortGroupClosedForm | rumi_ai_1_10/core_runtime/flow_loader.py:984-1032 | A group is rearranged: strictly by (longest chain, priority, id) when acyclic, left in (priority, id) order when cyclic |
| StepOrder.PrecedesRespectsDependencies | rumi_ai_1_10/core_runtime/flow_loader.py:1009-1020 | That order never puts a step before one it depends on |
| StepOrder.PrecedesAsymmetric | rumi_ai_1_10/core_runtime/flow_loader.py:1009-1020 | That order is strict, so the closed form determines the result |
| StepSort.EveryStepPerPhase | rumi_ai_1_10/core_runtime/flow_loader.py:970-982 | Every step comes out as often as its phase is listed; a repeated phase emits its group again, an unlisted one drops its steps |
| StepSort.PermutationIff | rumi_ai_1_10/core_runtime/flow_loader.py:970-982 | The result is a permutation of the input if and only if every step's phase is listed exactly once |
| StepSort.PhaseOrderRespected | rumi_ai_1_10/core_runtime/flow_loader.py:934-972 | The result is ordered by phase |
| StepSort.PhaseClosedForm | rumi_ai_1_10/core_runtime/flow_loader.py:921-1034 | Inside each phase the result is strictly ordered by (longest same-phase dependency chain, priority, id), or by (priority, id) when the phase has a cycle |
| StepSort.OrderSpelledOut | rumi_ai_1_10/core_runtime/flow_loader.py:921-1034 | The same spelled out: shorter chain, then smaller priority number, then the id that comes first |
| StepSort.DependenciesFirst | rumi_ai_1_10/core_runtime/flow_loader.py:921-1034 | In a phase without cycles same-phase dependencies come first |
| StepSort.SortIgnoresInputOrder | rumi_ai_1_10/core_runtime/flow_loader.py:921-1034 | Every permutation of the input gives the same result |
| FlowOverrides.FlowLoader.LoadFiles | rumi_ai_1_10/core_runtime/flow_loader.py:411-469 | One source after another: which existing definitions a new one may replace |
| FlowOverrides.FlowLoader.LoadPackFlows | rumi_ai_1_10/core_runtime/flow_loader.py:471-493 | Packs that are not approved contribute nothing |
| FlowOverrides.FlowLoader.LoadAllFlows | rumi_ai_1_10/core_runtime/flow_loader.py:376-409 | Every flow id gets its winner, and nothing else is loaded |
| FlowOverrides.OfficialKeepsFirst | rumi_ai_1_10/core_runtime/flow_loader.py:411-432 | Among official files the first definition of an id stays |
| FlowOverrides.OthersKeepLast | rumi_ai_1_10/core_runtime/flow_loader.py:434-469 | In every other source the last definition counts, unless a source of higher rank has one |
| FlowOverrides.LoadedIsWinner | rumi_ai_1_10/core_runtime/flow_loader.py:376-618 | Official before shared before approved packs before the local pack, as one closed form over all files |
| YamlLimits.StackWalk | rumi_ai_1_10/core_runtime/flow_loader.py:81-131 | The stack walk terminates on every object graph and accepts exactly when depth and weight are within the limits |
| YamlLimits.PopAndPush | rumi_ai_1_10/core_runtime/flow_loader.py:106-131 | One turn of the loop conserves count plus pending weight |
| YamlLimits.StackAcceptsExactly | rumi_ai_1_10/core_runtime/flow_loader.py:81-131 | It accepts exactly the data that is a finite tree with nodes plus dict keys within max_nodes and depth within max_depth |
| YamlLimits.RecursiveWalk | rumi_ai_1_10/core_runtime/flow_modifier_loader.py:309-329 | The recursive walk with its shared counter, on graphs |
| YamlLimits.CheckRecursively | rumi_ai_1_10/core_runtime/flow_modifier_loader.py:305-331 | The recursive guard accepts exactly by depth and node count |
| YamlLimits.RecursionAcceptsExactly | rumi_ai_1_10/core_runtime/flow_modifier_loader.py:305-331 | It accepts exactly the finite trees with nodes within max_nodes and depth within max_depth; keys do not count |
| YamlLimits.StackIsStricter | rumi_ai_1_10/core_runtime/flow_modifier_loader.py:305-331 | Whatever the stack walk accepts, the recursive walk accepts under the same limits |
| YamlLimits.StackIsStrictlyStricter | rumi_ai_1_10/core_runtime/flow_loader.py:120-128 | The converse fails, by example |
| YamlLimits.CyclicIsTooDeep | rumi_ai_1_10/core_runtime/flow_loader.py:106-118 | Data that refers back to itself is refused by both, whatever the limits |
| FlowModifier.FindStepIndex | rumi_ai_1_10/core_runtime/flow_modifier.py:368-373 | The first step with the id, or -1 |
| FlowModifier.LocateTarget | rumi_ai_1_10/core_runtime/flow_modifier.py:266-271 | The positional targets and the search |
| FlowModifier.Classify | rumi_ai_1_10/core_runtime/flow_modifier.py:194-241 | Refusals in order, accepted modifiers filed by action and key in order of first mention; ModifierActions says what that makes of each action |
| FlowModifier.ApplySingleModifier | rumi_ai_1_10/core_runtime/flow_modifier.py:413-484 | Replace and remove on the located step, or the reason for skipping |
| FlowModifier.ApplyOthers | rumi_ai_1_10/core_runtime/flow_modifier.py:261-263 | All replacements and removals in list order |
| FlowModifier.Inject | rumi_ai_1_10/core_runtime/flow_modifier.py:265-332 | Every group goes, sorted, directly beside its target, or is skipped as a whole |
| FlowModifier.ActionAppend | rumi_ai_1_10/core_runtime/flow_modifier.py:486-502 | A step goes to the end of its phase |
| FlowModifier.AppendGroups | rumi_ai_1_10/core_runtime/flow_modifier.py:334-345 | All append groups in order |
| FlowModifier.FlowModifierApplier.ApplyModifiers | rumi_ai_1_10/core_runtime/flow_modifier.py:181-362 | The method computes the specification the lemmas below are about; the schedule is dropped unless it is a dry run |
| ModifierActions.ScreenExactly | rumi_ai_1_10/core_runtime/flow_modifier.py:194-229 | Accepted are exactly the modifiers whose requirements are there and whose phase is known, appends to unknown phases moved to the last; the reason otherwise |
| ModifierActions.StepOfModifier | rumi_ai_1_10/core_runtime/flow_modifier.py:375-411 | The fields of a modifier step and their defaults |
| ModifierActions.FoundAlone | rumi_ai_1_10/core_runtime/flow_modifier.py:231-332 | A modifier alone: inject_before puts its step in front of the target, inject_after behind it, replace in its place, remove takes it away |
| ModifierActions.NotFoundAlone | rumi_ai_1_10/core_runtime/flow_modifier.py:265-297 | Without its target, or with an unknown action, it changes nothing and says why |
| ModifierActions.AppendAlone | rumi_ai_1_10/core_runtime/flow_modifier.py:486-502 | An append goes behind the last step that is not of a later phase |
| ModifierActions.RefusedAlone | rumi_ai_1_10/core_runtime/flow_modifier.py:194-229 | A refused modifier changes nothing |
| ModifierActions.InjectedStands | rumi_ai_1_10/core_runtime/flow_modifier.py:231-332 | In every list the step of an accepted inject_before stands in the result in front of the step found at its target, that of an inject_after behind it |
| ModifierActions.GroupSpelledOut | rumi_ai_1_10/core_runtime/flow_modifier.py:243-257 | A group is in order of priority number, then step id, then modifier id |
| ModifierLaws.OneResultEach | rumi_ai_1_10/core_runtime/flow_modifier.py:194-345 | Every modifier gets exactly one result |
| ModifierLaws.LengthLaw | rumi_ai_1_10/core_runtime/flow_modifier.py:261-345 | The length changes by successful injects and appends minus successful removes |
| ModifierLaws.SurvivorsKeepOrder | rumi_ai_1_10/core_runtime/flow_modifier.py:261-345 | The result holds, unchanged and in their old order, exactly those original steps that no successful replacement or removal acts on, of which each acts on at most one; injects and appends lose nothing of the rest |
| ModifierDeterminism.GroupsStandSorted | rumi_ai_1_10/core_runtime/flow_modifier.py:243-297 | For every list: each injected group stands in the result in (priority, step id, modifier id) order, on its side of the step found at its target |
| ModifierOrder.InjectionsExpand | rumi_ai_1_10/core_runtime/flow_modifier.py:265-332 | Without interference all injections amount to one reading of the steps that expands each target on both sides |
| ModifierOrder.AppendOrderIrrelevant | rumi_ai_1_10/core_runtime/flow_modifier.py:334-345 | The order of the append groups has no influence |
| ModifierDeterminism.ApplyClosedForm | rumi_ai_1_10/core_runtime/flow_modifier.py:194-345 | The whole application without interference in closed form |
| ModifierSwaps.GroupsSwapExactly | rumi_ai_1_10/core_runtime/flow_modifier.py:265-332 | Two inject groups of one side with different targets can be taken in either order on every step list if and only if they fit, positional targets included |
| ModifierSwaps.SinglesSwapExactly | rumi_ai_1_10/core_runtime/flow_modifier.py:413-484 | Two replacements or removals can be taken in either order on every step list if and only if they fit |
| ModifierListOrder.PairOrderExactly | rumi_ai_1_10/core_runtime/flow_modifier.py:194-345 | Two accepted modifiers can be listed either way round on every flow if and only if they fit |
| ModifierListOrder.ListOrderIrrelevant | rumi_ai_1_10/core_runtime/flow_modifier.py:42-44 | The steps do not depend on the order of the list as far as the modifiers and groups that change places fit each other |
| ModifierListOrder.InjectionsInAnyOrder | rumi_ai_1_10/core_runtime/flow_modifier.py:42-44 | In particular when replacements and removals keep their order and no injection targets a position or another's step |
| ModifierListOrder.InjectionListsExactly | rumi_ai_1_10/core_runtime/flow_modifier.py:194-345 | A list of any length, of injections on one side of named steps and appends, can be listed in any way on every flow if and only if no group injects another one's target |
| ModifierPhases.PhasesStaySorted | rumi_ai_1_10/core_runtime/flow_modifier.py:261-345 | A phase-sorted list stays so when each replacement and each injected group has the phase of the step it finds at its target, whatever the targets |
| ModifierPhases.TypedPhasesStaySorted | rumi_ai_1_10/core_runtime/flow_modifier.py:261-345 | In particular when ids tell phases and no replacement or injection leaves its target's phase |
| ModifierListOrder.ListOrderMattersWithInterference | rumi_ai_1_10/core_runtime/flow_modifier.py:265-297 | An injection that targets another one's step makes the list order matter, by example |
| PrincipalChain.JoinOfSplit | rumi_ai_1_10/core_runtime/hierarchical_grant.py:26-35 | Joining the parts of a split gives the id back |
| PrincipalChain.SplitOfJoin | rumi_ai_1_10/core_runtime/hierarchical_grant.py:26-35 | Splitting a join gives the parts back exactly for parts that a split can produce |
| PrincipalChain.PrefixIsWell | rumi_ai_1_10/core_runtime/hierarchical_grant.py:26-35 | Every prefix of a split is one a split can produce, runs of underscores included |
| PrincipalChain.ChainOfMember | rumi_ai_1_10/core_runtime/hierarchical_grant.py:26-35 | The chain of a chain member is the part of the chain that ends there |
| PrincipalChain.ChainShape | rumi_ai_1_10/core_runtime/hierarchical_grant.py:26-50 | The last member is the id, the first the root, the one before the last the parent |
| PrincipalChain.ChainStrict | rumi_ai_1_10/core_runtime/hierarchical_grant.py:26-35 | Members get strictly longer, so none repeats |
| PrincipalChain.ChainOfTwo | rumi_ai_1_10/core_runtime/hierarchical_grant.py:26-35 | A principal with one ancestor, spelled out |
| HierarchicalGrant.IntersectTwo | rumi_ai_1_10/core_runtime/hierarchical_grant.py:75-96 | The loop over the common keys computes the meet of two configurations, in any key order |
| HierarchicalGrant.IntersectConfig | rumi_ai_1_10/core_runtime/hierarchical_grant.py:53-72 | The fold over a list of configurations |
| HierarchicalGrant.BelowReflexive | rumi_ai_1_10/core_runtime/hierarchical_grant.py:53-96 | Every value is at most itself |
| HierarchicalGrant.BelowTransitive | rumi_ai_1_10/core_runtime/hierarchical_grant.py:53-96 | "At most as much" is transitive |
| HierarchicalGrant.MeetIsGreatest | rumi_ai_1_10/core_runtime/hierarchical_grant.py:75-96 | A value is below the first and within the second if and only if it is below their meet |
| HierarchicalGrant.MeetIsBound | rumi_ai_1_10/core_runtime/hierarchical_grant.py:75-96 | The meet is below the first and within the second |
| HierarchicalGrant.ListMeetExactly | rumi_ai_1_10/core_runtime/hierarchical_grant.py:80-87 | The meet of two lists keeps, in order and with repetitions, exactly the strings that are literally in the second and the numbers and truth values equal to one there |
| HierarchicalGrant.NumberMeetExactly | rumi_ai_1_10/core_runtime/hierarchical_grant.py:88-92 | The meet of two numbers or truth values is the smaller one |
| HierarchicalGrant.MeetAllNarrows | rumi_ai_1_10/core_runtime/hierarchical_grant.py:53-72 | Every further level only narrows the result |
| HierarchicalGrant.MeetAllIsGreatest | rumi_ai_1_10/core_runtime/hierarchical_grant.py:53-72 | The intersection is the largest configuration that every level allows |
| CapabilityGrants.CapabilityGrantManager.Ask | rumi_ai_1_10/core_runtime/capability_grant_manager.py:245-331 | The loop over the chain: the first denial or the intersected configuration |
| CapabilityGrants.CapabilityGrantManager.GrantPermission | rumi_ai_1_10/core_runtime/capability_grant_manager.py:333-366 | New state of a grant |
| CapabilityGrants.CapabilityGrantManager.RevokePermission | rumi_ai_1_10/core_runtime/capability_grant_manager.py:368-388 | New state of revoking one permission, and whether there was one |
| CapabilityGrants.CapabilityGrantManager.RevokeAll | rumi_ai_1_10/core_runtime/capability_grant_manager.py:390-403 | New state of disabling a principal |
| CapabilityGrants.AllowedIffWholeChain | rumi_ai_1_10/core_runtime/capability_grant_manager.py:256-330 | A principal is allowed if and only if every member of its chain is |
| CapabilityGrants.VerdictExactly | rumi_ai_1_10/core_runtime/capability_grant_manager.py:262-300 | A member allows if and only if it has no tamper mark, under its own or its file name, and an enabled grant with the permission enabled; with the configuration stored there |
| CapabilityGrants.TamperDenies | rumi_ai_1_10/core_runtime/capability_grant_manager.py:245-270 | A tamper mark on any chain member denies |
| CapabilityGrants.DenialOfFirst | rumi_ai_1_10/core_runtime/capability_grant_manager.py:256-300 | A denial is that of the first member from the root on that does not allow |
| CapabilityGrants.Attenuation | rumi_ai_1_10/core_runtime/capability_grant_manager.py:256-330 | An allowed principal has only allowed ancestors, and its configuration is below each of theirs |
| CapabilityGrants.EffectiveConfig | rumi_ai_1_10/core_runtime/capability_grant_manager.py:300-330 | The effective configuration is the greatest one allowed by every grant along the chain |
| CapabilityGrants.EffectiveLists | rumi_ai_1_10/core_runtime/capability_grant_manager.py:300-330 | Every string in a list of the effective configuration is literally in that list of every chain member's own configuration, every number equal to one there |
| CapabilityGrants.RevokingAncestorDenies | rumi_ai_1_10/core_runtime/capability_grant_manager.py:368-403 | Revoking from any ancestor denies |
| CapabilityGrants.RevokingNeverAllows | rumi_ai_1_10/core_runtime/capability_grant_manager.py:368-403 | No revocation allows anyone anything new |
| CapabilityGrants.UpdatesAreLocal | rumi_ai_1_10/core_runtime/capability_grant_manager.py:333-403 | Grants and revocations change what one principal says, about one permission, and nothing else |
| CapabilityGrants.GrantUndoesRevokeAll | rumi_ai_1_10/core_runtime/capability_grant_manager.py:333-366 | A grant after revoking everything brings the other permissions back exactly as they were enabled, tampered or not |
| CapabilityGrants.GrantTakesEffect | rumi_ai_1_10/core_runtime/capability_grant_manager.py:333-366 | After a grant the principal is allowed the permission if and only if all its ancestors are; a root principal always, with that configuration; others are judged as before |
| FlowScheduler.SafeStep | rumi_ai_1_10/core_runtime/flow_scheduler.py:447-520 | Every lock-sized step keeps: no flow is claimed, queued or executing twice, and one that is, is marked as running |
| FlowScheduler.AlwaysSafe | rumi_ai_1_10/core_runtime/flow_scheduler.py:299-520 | So does every interleaving of ticks, workers, registrations, starts and stops |
| FlowScheduler.SafeFromInit | rumi_ai_1_10/core_runtime/flow_scheduler.py:276-297 | In particular from the initial state |
| FlowScheduler.EntriesExactly | rumi_ai_1_10/core_runtime/flow_scheduler.py:299-377 | Registering adds a flow to the entries, unregistering takes it out, nothing else changes them |
| FlowScheduler.UnregisteredStaysOut | rumi_ai_1_10/core_runtime/flow_scheduler.py:371-377 | Until it is registered again no timer takes an unregistered flow up, and only threads that had it in their snapshot deal with it |
| FlowScheduler.StoppedTakesUpNothing | rumi_ai_1_10/core_runtime/flow_scheduler.py:447-459 | While the scheduler is stopped no thread takes up another flow |
| FlowScheduler.StrandedExactly | rumi_ai_1_10/core_runtime/flow_scheduler.py:466-480 | A flow becomes stranded, marked as running with nobody to run it, exactly when its claim is lost on the way to the executor |
| FlowScheduler.StrandedInTheEnd | rumi_ai_1_10/core_runtime/flow_scheduler.py:447-520 | At the end of a run from a safe state a flow is stranded if and only if it was before or some step lost a claim on it |
| FlowScheduler.StrandedForever | rumi_ai_1_10/core_runtime/flow_scheduler.py:462-472 | A stranded flow stays so in every continuation |
| FlowScheduler.RunningExactly | rumi_ai_1_10/core_runtime/flow_scheduler.py:447-520 | As long as no claim is lost the marks are exactly the flows being taken care of |
| FlowScheduler.StopCanStrand | rumi_ai_1_10/core_runtime/flow_scheduler.py:399-412 | A stop between claim and submission strands a flow: a run from the initial state |
| FlowScheduler.FlowScheduler.Register | rumi_ai_1_10/core_runtime/flow_scheduler.py:299-369 | The object takes the registration step |
| FlowScheduler.FlowScheduler.Unregister | rumi_ai_1_10/core_runtime/flow_scheduler.py:371-377 | The object takes the removal step |
| FlowScheduler.FlowScheduler.Start | rumi_ai_1_10/core_runtime/flow_scheduler.py:379-390 | Start is its two writes in order, or nothing when running |
| FlowScheduler.FlowScheduler.Stop | rumi_ai_1_10/core_runtime/flow_scheduler.py:399-412 | Stop is its writes in order |
| FlowScheduler.FlowScheduler.TryClaim | rumi_ai_1_10/core_runtime/flow_scheduler.py:468-472 | The second check and the claim, under the lock |
| FlowScheduler.FlowScheduler.Discard | rumi_ai_1_10/core_runtime/flow_scheduler.py:518-520 | The finally block |
| Schedules.KeysCollideExactly | rumi_ai_1_10/core_runtime/flow_scheduler.py:235-236 | Two minutes share a key if and only if they are the same or ten hours (sixteen over New Year) lie between a 31st and the following 1st |
| Schedules.WeekdayConversion | rumi_ai_1_10/core_runtime/flow_scheduler.py:189-194 | The conversion of cron weekdays maps Sunday to 6 and shifts the others, without confusing any |
| Schedules.NoDoubleFire | rumi_ai_1_10/core_runtime/flow_scheduler.py:231-242 | With a clock that never goes back no minute fires twice |
| Schedules.FiresExactly | rumi_ai_1_10/core_runtime/flow_scheduler.py:231-242 | A minute fires if and only if its minute, hour, day, month and cron weekday are all in the sets and its key is not the one held |
| Schedules.PassedOverExactly | rumi_ai_1_10/core_runtime/flow_scheduler.py:231-242 | Whatever the clock does, a matching minute is passed over if and only if the latest matching minute evaluated before it is the same or a colliding one |
| Schedules.ShadowsForward | rumi_ai_1_10/core_runtime/flow_scheduler.py:231-242 | With a clock that never goes back the minute on the 31st is the earlier one of a colliding pair |
| Schedules.MidnightOnTheFirstIsLost | rumi_ai_1_10/core_runtime/flow_scheduler.py:235-242 | A schedule that loses a date to the collision |
| Schedules.ClaimedExactly | rumi_ai_1_10/core_runtime/flow_scheduler.py:243-264 | An interval entry is claimed if and only if its flow is not running and the interval since the latest claim, or the first one, has passed |
| Schedules.IntervalSpacing | rumi_ai_1_10/core_runtime/flow_scheduler.py:243-264 | Two claims of an interval entry are at least the interval apart |
| Schedules.MinimumSpacing | rumi_ai_1_10/core_runtime/flow_scheduler.py:338-339 | And at least ten seconds, whatever interval was asked for |
| Schedules.ScheduleEntry.SetNext | rumi_ai_1_10/core_runtime/flow_scheduler.py:474-476 | The next run is one interval after the clock is read |
| Schedules.ScheduleEntry.ShouldRun | rumi_ai_1_10/core_runtime/flow_scheduler.py:229-249 | The decision, and the remembered minute |
| Schedules.RunTicks | rumi_ai_1_10/core_runtime/flow_scheduler.py:459-476 | Over any number of ticks the object claims exactly as the specifications say: for intervals at every look, for cron entries at the looks that do not find the flow running |
| Schedules.RunInterval | rumi_ai_1_10/core_runtime/flow_scheduler.py:347-476 | A registered interval is never claimed twice within itself or within ten seconds |
| FunctionRegistry.FunctionRegistry.AddToTagIndex | rumi_ai_1_10/core_runtime/function_registry.py:157-162 | Tag buckets gain the function under each normalised tag |
| FunctionRegistry.FunctionRegistry.RemoveFromTagIndex | rumi_ai_1_10/core_runtime/function_registry.py:164-170 | They lose it, and empty buckets disappear |
| FunctionRegistry.FunctionRegistry.RegisterAliases | rumi_ai_1_10/core_runtime/function_registry.py:172-194 | The first owner of an alias keeps it; protected names stay with core packs |
| FunctionRegistry.AliasesRegisteredExactly | rumi_ai_1_10/core_runtime/function_registry.py:172-194 | A new function gets exactly those of its aliases that are free and, in the reserved name spaces, only as a core pack; others stay as they are |
| FunctionRegistry.FunctionRegistry.UnregisterAliases | rumi_ai_1_10/core_runtime/function_registry.py:196-203 | A function's own aliases go |
| FunctionRegistry.FunctionRegistry.Register | rumi_ai_1_10/core_runtime/function_registry.py:298-358 | A registration on all four maps, or nothing for a known name |
| FunctionRegistry.FunctionRegistry.UnregisterPack | rumi_ai_1_10/core_runtime/function_registry.py:473-485 | All functions of a pack leave all four maps |
| FunctionRegistry.FunctionRegistry.SearchByTag | rumi_ai_1_10/core_runtime/function_registry.py:498-517 | The index lookup equals a linear scan of the entries |
| FunctionRegistry.FunctionRegistry.ResolveByAlias | rumi_ai_1_10/core_runtime/function_registry.py:598-608 | An alias leads to a registered entry that declares it |
| FunctionRegistry.RunConsistent | rumi_ai_1_10/core_runtime/function_registry.py:298-485 | After any run the tag index is exactly that of the entries without empty buckets, and aliases and permission ids lead to live entries declaring them |
| FunctionRegistry.TagsDetermined | rumi_ai_1_10/core_runtime/function_registry.py:157-170 | The tag index is a function of the entries |
| FunctionRegistry.AliasKeepsOwner | rumi_ai_1_10/core_runtime/function_registry.py:172-203 | An alias keeps its owner as long as that stays registered |
| FunctionRegistry.AliasesStayCompleteIff | rumi_ai_1_10/core_runtime/function_registry.py:172-203 | Permitted aliases of live functions all lead somewhere, unless a pack is removed that shares one with a function that stays |
| FunctionRegistry.SharedAliasIsLost | rumi_ai_1_10/core_runtime/function_registry.py:172-203 | Such an alias is lost for the function that stays |
| FunctionRegistry.PackRemovedExactly | rumi_ai_1_10/core_runtime/function_registry.py:473-485 | Removing a pack takes away exactly its functions, their aliases and their permission ids |
| FunctionRegistry.InstallThenRemove | rumi_ai_1_10/core_runtime/function_registry.py:360-395 | Installing and removing a fresh pack restores entries, tags and aliases exactly, and the permission index but for exactly the ids that a registered function of the pack declares |
| FunctionRegistry.PermsStayCompleteIff | rumi_ai_1_10/core_runtime/function_registry.py:205-214 | Removing a pack keeps the permission index complete if and only if no remaining function declares an id the index gives to the pack |
| FunctionRegistry.RegisteringKeepsPermsComplete | rumi_ai_1_10/core_runtime/function_registry.py:205-208 | Registration keeps it complete |
| FunctionRegistry.OverwrittenPermissionIsLost | rumi_ai_1_10/core_runtime/function_registry.py:205-214 | An overwritten permission id is lost for both functions |
| CapabilityInstaller.CapabilityInstaller.ScanKey | rumi_ai_1_10/core_runtime/capability_installer.py:522-585 | What a scan makes of one candidate |
| CapabilityInstaller.CapabilityInstaller.ScanCandidates | rumi_ai_1_10/core_runtime/capability_installer.py:383-592 | The scan of a list of candidates; each is counted once under its outcome |
| CapabilityInstaller.CapabilityInstaller.ApproveAndInstall | rumi_ai_1_10/core_runtime/capability_installer.py:598-762 | Success if and only if the candidate is then installed |
| CapabilityInstaller.CapabilityInstaller.RejectCandidate | rumi_ai_1_10/core_runtime/capability_installer.py:867-956 | Counting, blocking at the threshold, cooldown below it |
| CapabilityInstaller.CapabilityInstaller.UnblockCandidate | rumi_ai_1_10/core_runtime/capability_installer.py:962-1012 | Leaving the block list with a fresh cooldown |
| CapabilityInstaller.ApproveExactly | rumi_ai_1_10/core_runtime/capability_installer.py:598-762 | An open candidate is installed, at its destination, if and only if the attempt succeeds, and FAILED with the error otherwise; nothing else changes |
| CapabilityInstaller.RejectExactly | rumi_ai_1_10/core_runtime/capability_installer.py:867-956 | A rejection counts one more, blocks from the threshold on and lets the candidate rest below it; nothing else changes |
| CapabilityInstaller.UnblockExactly | rumi_ai_1_10/core_runtime/capability_installer.py:962-1012 | Unblocking does this to blocked candidates and nothing to others |
| CapabilityInstaller.ScanExactly | rumi_ai_1_10/core_runtime/capability_installer.py:522-585 | A scan offers exactly new candidates and rejected ones whose cooldown is over |
| CapabilityInstaller.AlwaysSound | rumi_ai_1_10/core_runtime/capability_installer.py:383-1012 | In every run from an empty store: on the block list if and only if BLOCKED; BLOCKED only from the threshold on; who has a cooldown, a destination and an error |
| CapabilityInstaller.CountsRejections | rumi_ai_1_10/core_runtime/capability_installer.py:885 | The stored count is the number of successful rejections |
| CapabilityInstaller.InstalledForGood | rumi_ai_1_10/core_runtime/capability_installer.py:612-620 | INSTALLED is never left and the record never changes |
| CapabilityInstaller.BlockedUntilUnblocked | rumi_ai_1_10/core_runtime/capability_installer.py:622-623 | BLOCKED is left only by unblocking |
| CapabilityInstaller.OneStrike | rumi_ai_1_10/core_runtime/capability_installer.py:885-893 | After an unblocking, ever after, a single rejection blocks again |
| CapabilityInstaller.CooldownHolds | rumi_ai_1_10/core_runtime/capability_installer.py:534-539 | After a rejection or unblocking the candidate is not offered again, whatever happens, until the cooldown has passed |
| CapabilityInstaller.OfferedAgain | rumi_ai_1_10/core_runtime/capability_installer.py:534-551 | A scan offers a rejected candidate again if and only if its cooldown is over |
| ApprovalManager.ApprovalManager.Scan | rumi_ai_1_10/core_runtime/approval_manager.py:331-338 | A record for a newly found pack |
| ApprovalManager.ApprovalManager.Approve | rumi_ai_1_10/core_runtime/approval_manager.py:533-594 | Approval with the given hashes and a new event |
| ApprovalManager.ApprovalManager.ApproveRule | rumi_ai_1_10/core_runtime/approval_manager.py:596-660 | Rule approval of an approved rule pack |
| ApprovalManager.ApprovalManager.Reject | rumi_ai_1_10/core_runtime/approval_manager.py:689-705 | Blocking |
| ApprovalManager.ApprovalManager.MarkModified | rumi_ai_1_10/core_runtime/approval_manager.py:706-711 | The modified mark |
| ApprovalManager.ApprovalManager.ApplyUpdate | rumi_ai_1_10/core_runtime/approval_manager.py:952-1017 | Same hashes keep the record, other hashes mark it modified |
| ApprovalManager.ApprovalManager.RemoveApproval | rumi_ai_1_10/core_runtime/approval_manager.py:919-930 | The record goes |
| ApprovalManager.ApprovalManager.RollbackToVersion | rumi_ai_1_10/core_runtime/approval_manager.py:1031-1120 | Succeeds if and only if the version exists and the files are its files |
| ApprovalManager.ApprovalManager.AutoApproveIfDev | rumi_ai_1_10/core_runtime/approval_manager.py:464-531 | Approves only in development mode and never a blocked pack |
| ApprovalManager.ApprovalManager.VerifyHash | rumi_ai_1_10/core_runtime/approval_manager.py:832-865 | True if and only if the stored hashes, if any, are those of the files |
| ApprovalManager.ApprovalManager.VerifyHashDetailed | rumi_ai_1_10/core_runtime/approval_manager.py:729-821 | Valid if and only if verify_hash says so; the differing files; critical if and only if a file went, a critical one changed or one appeared outside blocks/ |
| Approvals.AlwaysSound | rumi_ai_1_10/core_runtime/approval_manager.py:551-1102 | In every interleaving versions count 1..n, the stored hashes are the last event's, APPROVED means last approved, rule-approved or rolled back |
| Approvals.EffectExactly | rumi_ai_1_10/core_runtime/approval_manager.py:533-1017 | What each operation makes of the record it names, and that it leaves the others alone |
| Approvals.RollbackExactly | rumi_ai_1_10/core_runtime/approval_manager.py:1031-1120 | A rollback that ends restores the version it was asked for and leaves the pack APPROVED if and only if the files are that version |
| Approvals.RollbackRefused | rumi_ai_1_10/core_runtime/approval_manager.py:1040-1060 | A rollback to a version that is not there does not start |
| Approvals.StatusVerdictExactly | rumi_ai_1_10/core_runtime/approval_manager.py:426-446 | Unknown, blocked and modified packs are refused as such, only APPROVED ones go on |
| Approvals.HistoryAppendOnly | rumi_ai_1_10/core_runtime/approval_manager.py:558-564 | A record that is not dropped or replaced only gains events at the end of its history |
| Approvals.RollbacksFaithful | rumi_ai_1_10/core_runtime/approval_manager.py:1050-1102 | A rollback event has the hashes of the version it names, whatever happened between its two phases |
| Approvals.YesMeansLastEvent | rumi_ai_1_10/core_runtime/approval_manager.py:426-458 | A non-core pack passes if and only if it was APPROVED at the first look and at the second its files are those of the last event, which has some |
| Approvals.YesMeansApprovedFiles | rumi_ai_1_10/core_runtime/approval_manager.py:426-458 | Whatever happens between the two looks, if no update of the record is among it, a yes means that the last event approved exactly the files there are |
| Approvals.StaleExactly | rumi_ai_1_10/core_runtime/approval_manager.py:437-456 | A yes without such an event comes about if and only if the last thing recorded in between is an update to other hashes, and the files have those |
| Approvals.StaleYes | rumi_ai_1_10/core_runtime/approval_manager.py:437-456 | It can come about: a run of one step |
| Approvals.BlockedUntil | rumi_ai_1_10/core_runtime/approval_manager.py:689-705 | Exactly which steps take a pack out of BLOCKED |
| Approvals.AutoApproveAndBlocked | rumi_ai_1_10/core_runtime/approval_manager.py:490-505 | Development mode does not start on a blocked pack; once it has looked it approves even a pack that was blocked since, if and only if the directory is there |
| Approvals.NoDifferences | rumi_ai_1_10/core_runtime/approval_manager.py:780-790 | No file removed, added or changed if and only if the hashes are equal |
| Approvals.CriticalExactly | rumi_ai_1_10/core_runtime/approval_manager.py:790-821 | Which differences are critical, spelled out |
| RateLimiter.PackRateLimiter.Expire | rumi_ai_1_10/core_runtime/egress_rate_limiter.py:62-63 | The popleft loop |
| RateLimiter.PackRateLimiter.CheckRateLimit | rumi_ai_1_10/core_runtime/egress_rate_limiter.py:46-72 | Answer and new windows |
| RateLimiter.PackRateLimiter.GetCurrentCount | rumi_ai_1_10/core_runtime/egress_rate_limiter.py:74-85 | Answer and new windows |
| RateLimiter.PackRateLimiter.Reset | rumi_ai_1_10/core_runtime/egress_rate_limiter.py:87-93 | One pack, or all for no or an empty id |
| RateLimiter.PackIsIdeal | rumi_ai_1_10/core_runtime/egress_rate_limiter.py:46-93 | With orderly clock readings for a pack all answers about it equal those of a reference that keeps every admission: refused if and only if the last 60 seconds are full; asking for the count changes nothing, and other packs have no influence |
| RateLimiter.IdealExactly | rumi_ai_1_10/core_runtime/egress_rate_limiter.py:53-85 | Exactly then: for given readings of a pack the answers are those of the reference for every limit and every mix of checks and counts if and only if the readings are orderly |
| RateLimiter.LimiterIsIdeal | rumi_ai_1_10/core_runtime/egress_rate_limiter.py:46-93 | All answers of a run are those of the reference if the readings of every pack are orderly |
| RateLimiter.TickingIsOrderly | rumi_ai_1_10/core_runtime/egress_rate_limiter.py:53-59 | A clock that never goes back makes them so |
| RateLimiter.NeverMoreThanTheLimit | rumi_ai_1_10/core_runtime/egress_rate_limiter.py:46-72 | Without resets, and if no reading of the pack comes within a minute of one that was out of date before it, no closed interval of 60 seconds holds more than max_rpm admissions of it |
| RateLimiter.LimitExactly | rumi_ai_1_10/core_runtime/egress_rate_limiter.py:46-85 | Exactly then: for given readings of a pack the limit is kept for every max_rpm and every mix of checks and counts if and only if no reading does |
| RateLimiter.OrderlyNeverReadmits | rumi_ai_1_10/core_runtime/egress_rate_limiter.py:53-59 | Orderly readings never do |
| RateLimiter.LimitAsksForLess | rumi_ai_1_10/core_runtime/egress_rate_limiter.py:53-59 | The converse fails, by example |
| RateLimiter.ClockMatters | rumi_ai_1_10/core_runtime/egress_rate_limiter.py:53-59 | With a clock that goes back the limit can be exceeded: a run |
| Texts.StripExact | rumi_ai_1_10/core_runtime/docker_capability.py:89 | strip removes exactly the blanks around a text |
| Texts.NumberDecimal | rumi_ai_1_10/core_runtime/docker_capability.py:93 | int undoes str |
| DockerMemory.ParseSpelled | rumi_ai_1_10/core_runtime/docker_capability.py:82-100 | Number, blanks and unit, in any case and with blanks around, are read as number times unit |
| DockerMemory.ParsedIsSpelled | rumi_ai_1_10/core_runtime/docker_capability.py:82-100 | Nothing else is accepted |
| DockerMemory.ParseFormat | rumi_ai_1_10/core_runtime/docker_capability.py:102-111 | Parsing a formatted size gives it back, for every size |
| DockerMemory.EffectiveMemoryIsMinimum | rumi_ai_1_10/core_runtime/docker_capability.py:149-168 | The effective size parses to the least of request or default, grant maximum and 1 GiB; refused if and only if a given size is not one |
| DockerMemory.UnitsExactly | rumi_ai_1_10/core_runtime/docker_capability.py:82-100 | Units are powers of 1024, the absolute maximum is 1 GiB and the default 256 MiB |
| DockerContainers.AtMostFive | rumi_ai_1_10/core_runtime/docker_capability.py:346-366 | In every interleaving at most five active containers per principal, and at most its grants' maximum |
| DockerContainers.ClaimExactly | rumi_ai_1_10/core_runtime/docker_capability.py:346-366 | A run starts if and only if its principal has fewer active containers than the grant allows, three by default and never more than five |
| DockerContainers.StopExactly | rumi_ai_1_10/core_runtime/docker_capability.py:605-628 | A stop is let through for the owner only, and takes the container off the table |
| DockerContainers.RemovedByOwner | rumi_ai_1_10/core_runtime/docker_capability.py:479-481 | A container leaves the table only through its own run or a stop its owner asked for |
| DockerContainers.InFlightUnbounded | rumi_ai_1_10/core_runtime/docker_capability.py:619-628 | The table is cleared when docker stop returns, so the runs in flight are not bounded by it |
| DockerContainers.UnlistedExactly | rumi_ai_1_10/core_runtime/docker_capability.py:619-628 | A run in flight drops off the table if and only if a stop of its container returns while it is listed |
| DockerContainers.ListedExactly | rumi_ai_1_10/core_runtime/docker_capability.py:346-481 | The table shows all runs in flight all the time if and only if that never happens |
| DockerContainers.InFlightBounded | rumi_ai_1_10/core_runtime/docker_capability.py:346-481 | At most five runs of a principal are in flight, plus one for every time it happened |
| DockerContainers.DockerCapabilityHandler.CountActive | rumi_ai_1_10/core_runtime/docker_capability.py:210-214 | The count of a principal's active containers |
| DockerContainers.DockerCapabilityHandler.Reserve | rumi_ai_1_10/core_runtime/docker_capability.py:348-366 | The limit check and the claim are the claim step |
| DockerContainers.DockerCapabilityHandler.Release | rumi_ai_1_10/core_runtime/docker_capability.py:479-481 | The finally block is the finish step |
| DockerContainers.DockerCapabilityHandler.VerifyOwnership | rumi_ai_1_10/core_runtime/docker_capability.py:216-232 | Not found, not owned, or owned |
| EgressProtocol.UnpackPack | rumi_ai_1_10/core_runtime/egress_protocol.py:45-68 | The length prefix is read back |
| EgressProtocol.BigEndian | rumi_ai_1_10/core_runtime/egress_protocol.py:45-68 | The most significant byte of the prefix comes first |
| EgressProtocol.ReadExactly | rumi_ai_1_10/core_runtime/egress_protocol.py:39-44 | A receive loop gets the same bytes under every fragmentation, or the error of recv |
| EgressProtocol.ReadLengthPrefixed | rumi_ai_1_10/core_runtime/egress_protocol.py:35-61 | The result and the bytes consumed are a function of the bytes to come, not of their fragmentation; an error if and only if recv raised one |
| EgressProtocol.WriteLengthPrefixed | rumi_ai_1_10/core_runtime/egress_protocol.py:64-68 | Prefix and payload, or nothing for 4 GiB and more |
| EgressProtocol.ReadBack | rumi_ai_1_10/core_runtime/egress_protocol.py:35-68 | A message within the limit is read back and exactly its bytes are consumed |
| EgressProtocol.OversizedRefused | rumi_ai_1_10/core_runtime/egress_protocol.py:47-48 | A longer one is refused after its header |
| EgressProtocol.OtherPayloads | rumi_ai_1_10/core_runtime/egress_protocol.py:51-61 | An empty payload is the empty object, one that does not decode an error |
| EgressProtocol.StreamAppend | rumi_ai_1_10/core_runtime/egress_protocol.py:64-68 | Writing one more message extends the wire by its frame |
| EgressProtocol.DrainPrefix | rumi_ai_1_10/core_runtime/egress_protocol.py:35-68 | Of any part of a stream of messages the reader gets exactly the whole ones, in order, then notices the cut |
| EgressProtocol.RoundTrip | rumi_ai_1_10/core_runtime/egress_protocol.py:35-68 | Any sequence of messages is read back unchanged |
| EgressProtocol.ReadAll | rumi_ai_1_10/core_runtime/egress_protocol.py:35-61 | Asking again and again yields exactly what the bytes to come hold, whatever the pieces, or the error of recv |
| EgressProtocol.ReceiveMessages | rumi_ai_1_10/core_runtime/egress_protocol.py:35-68 | End to end: a receiver gets exactly the messages that arrived whole, under every fragmentation and every cut |
| EgressProtocol.ReadResponseWithLimit | rumi_ai_1_10/core_runtime/egress_protocol.py:208-252 | Excess if and only if announced or longer than the limit; exactly the first limit bytes or the whole body, unless a read raises on the way; at most limit + 1 bytes taken |
| VariableResolver.LookupVariable | rumi_ai_1_10/core_runtime/kernel_variable_resolver.py:87-128 | The loop over the path |
| VariableResolver.MatchExactly | rumi_ai_1_10/core_runtime/kernel_variable_resolver.py:19 | The pattern: one of the three prefixes and as many name characters as there are |
| VariableResolver.PathReference | rumi_ai_1_10/core_runtime/kernel_variable_resolver.py:104-128 | A $flow. or $ctx. reference stands for the object at the end of the path of keys through dicts that its name describes, and for nothing if there is no such path |
| VariableResolver.EnvironmentKey | rumi_ai_1_10/core_runtime/kernel_variable_resolver.py:113-116 | Everything after the prefix, dots included, names the environment variable |
| VariableResolver.JoinSplitDots | rumi_ai_1_10/core_runtime/kernel_variable_resolver.py:104-116 | Joining the parts of a split reference gives it back |
| VariableResolver.SubstituteReference | rumi_ai_1_10/core_runtime/kernel_variable_resolver.py:79-85 | A reference inside text is replaced and scanning goes on behind it |
| VariableResolver.SubstituteFirst | rumi_ai_1_10/core_runtime/kernel_variable_resolver.py:79-85 | Inside any text the first reference is replaced by the text found, str of the object found, or itself, and scanning goes on behind it |
| VariableResolver.ResolvedExactly | rumi_ai_1_10/core_runtime/kernel_variable_resolver.py:35-85 | resolve_value gives exactly the value that an independent description gives, for every object, cyclic ones included: dicts and lists keep keys, order and length with everything inside resolved one level deeper, strings follow their chain of references |
| VariableResolver.UnresolvedUnchanged | rumi_ai_1_10/core_runtime/kernel_variable_resolver.py:70-85 | A reference that leads nowhere leaves the string as it was |
| VariableResolver.RefFreeUnchanged | rumi_ai_1_10/core_runtime/kernel_variable_resolver.py:35-53 | Values without references come back as exact copies, cyclic ones included |
| VariableResolver.ChainFollowed | rumi_ai_1_10/core_runtime/kernel_variable_resolver.py:70-77 | A chain of references is followed until it ends or the depth is used up, and the string reached then is returned raw |
| VariableResolver.ChainResolvedExactly | rumi_ai_1_10/core_runtime/kernel_variable_resolver.py:35-77 | Bounded resolution of an object that starts a chain equals unbounded resolution if and only if at most max_depth + 1 lookups are needed, less the depth at which it is met |
| VariableResolver.RefFreeSettles | rumi_ai_1_10/core_runtime/kernel_variable_resolver.py:79-85 | A chain may end in any string without references |
| VariableResolver.SelfReference | rumi_ai_1_10/core_runtime/kernel_variable_resolver.py:72 | A string stored under its own name resolves to itself, so the identity test does not matter |

## Left out

Not modelled:

- Files, YAML and JSON parsing, HMAC and SHA-256, sockets, HTTP, processes and docker: parsed data, hash values, byte
  sequences and outcomes are parameters; saving succeeds. Audit logs, diagnostics and message texts have no effect here.
- Manifests in which an entry of a component's `connectivity.requires` is a list or a dict, on which the resolver raises
  `TypeError` (`dependency_resolver.py:176-177`). Other entries that are not strings match nothing.
- `validate_rule_dependencies`, `function_alias.py`, `flow_composer.py`, fuzzy, vocabulary and unified search, CPU, process
  and time limits of containers, `validate_request`, listings and getters: they would add easy members only.
- Regular expressions are read off as what they match; `fnmatch` and the sanitising of principal ids are not modelled
  or a parameter. Letters and digits outside ASCII in memory sizes, and dict keys that are not strings, do not occur.
- Time zones: the local wall clock of a schedule is a parameter; parsing of cron fields is left out.
- The identity of records and entries handed out by getters: they are values in a map, which their owner reassigns.
- Python's `sorted` is a stable insertion sort, a heap the set of its elements, of which the least is popped.
- Load errors collected by the flow loader.

Stated weaker or under a condition:

- FlowLoader.SortSteps: requires distinct step ids, which the parser of flow files enforces (`flow_loader.py:780-805`).
- DependencyResolver.ResolveLoadOrder: the missing error names one of possibly several missing dependencies of the first
  pack that has any, because the source iterates over a set.
- Schedules.ScheduleEntry.ShouldRun: a tick's evaluation and the computation of the next run are each one step; ticks of
  two timers that evaluate the same entry at once are in the scheduler protocol, where any answer is possible.
- Schedules.NoDoubleFire: for a clock that never goes back, which a local clock does at the end of daylight saving time.
- ModifierListOrder.ListOrderIrrelevant: in general sufficient only for lists of three and more, because a later modifier can
  hide that two earlier ones do not fit; exact for two, and for injections on one side of named steps.
- FlowScheduler.FlowScheduler.Register: whether the schedule parses is a parameter, and the entry carries no schedule; what a
  schedule does is in `ScheduleEntry.dfy`.
- FlowScheduler.FlowScheduler.Start: the timer it launches is a source of steps of the protocol and not an object.
- FlowScheduler.FlowScheduler.Stop: the cancelled timer and the wait for running jobs are not part of the object.
- CapabilityInstaller.CapabilityInstaller.ScanCandidates: finding candidate directories, validating them and reporting
  invalid ones are replaced by the list of keys that they result in.
- EgressProtocol.ReadAll: the proxy itself reads one message per connection; asking again and again is the reader of this model.
- FlowScheduler.AlwaysSafe: nothing is said about progress, which a stop can prevent for good.
- RateLimiter.NeverMoreThanTheLimit: for runs without resets, which drop the admissions on purpose, and for the clock
  readings that `RateLimiter.LimitExactly` shows to be needed.
- Approvals.YesMeansLastEvent: the recorded hashes need not be those of the files at the moment of approval, because
  `approve` reads them through a cache (`approval_manager.py:549`); they are a parameter.
- FunctionRegistry.RunConsistent: the tag normaliser is one fixed function.
- EgressProtocol.RoundTrip: for payloads that JSON decodes to what was encoded.
- VariableResolver.ResolveString: a self-containing context is a graph; two strings with the same text are not told apart,
  which `VariableResolver.SelfReference` justifies.
