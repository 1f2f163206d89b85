# AIZO: verified models of the control plane's core

AIZO is a control plane written in Go. This project models the parts of it that keep state and
decide things, and proves what they keep over every input, run or interleaving:

- the entity catalog, its three indexes, the registration operations that edit stored entities in
  place, and the searches over the dependency graph (layer 2);
- the anomaly detector and the event stream (layer 3);
- the hash-chained event log (storage);
- the rule engine, its learning loop and the proposal lifecycle (layer 6);
- the mesh wire protocol, file transfer and coordinator election (layer 1);
- the policy engine and its rate limiter (policy).

`dafny verify dfyconfig.toml` checks all of it.

## How the model is laid out

Objects that the program updates in place are classes with the same fields, and each method is
proved against a function on values. What the program promises is then proved about those
functions, one run or one interleaving at a time.

| files | what they hold |
|---|---|
| Graph, CycleDetection, ImpactAnalysis, DependencyGraphs | reachability, and what the three searches mean |
| Relationships | the searches themselves, over shared maps and catalog objects |
| Common | types and functions that several modules share |
| Entities, Indexes, Catalog, CatalogRuns, Registration | entities, indexes as values, the catalog object, runs of changes, the registration operations |
| TracePropagation, AnomalyBands | z-scores as squares over reals, the detector, and which severities can occur |
| EventLogs | the chain, its runs, and what the last checksum commits to |
| Rules, RuleEngines, Proposals, Executions, Trust, Managers | conditions and thresholds, the engine object, the lifecycle as interleaved steps, how often actions run and that they do, the lifecycle together with the learning rules, the manager object |
| MeshProtocol, FileTransfer, Coordinators | framing, chunks, election |
| RateLimits, RateFairness, PolicyEngines | the fixed-window counter, who may be refused, prioritised policies |
| EventStreams, Deliveries, EventStreamObjects | publish and subscribe as interleaved steps, who gets what, and the object that takes the steps |

How Go is read here: integers are unbounded except for the payload length on the wire, which is
cut to 32 bits as in the program; `float64` is `real`, and a standard deviation is handled through
its square; time is an integer number of nanoseconds passed to each call, one reading per call;
the order of a map iteration is arbitrary; a fresh uuid is a parameter; SHA-256 (section 6.2 of
FIPS 180-4) with hex encoding, glob matching, case folding and list membership of a condition are
function parameters about which nothing is assumed unless a lemma says so; a lock makes the code
it guards one step; a goroutine or a channel is named by its number; a sort by priority is any
arrangement of the same policies in descending order.

## What was found

Several promises hold only under a condition. Each is stated with that condition, in both
directions where both hold.

- `ValidateDependencies` reports a cycle for an acyclic catalog in which one entity reaches the same
  unregistered id twice, because such an id is never taken off the recursion stack
  (layer2/relationship_mapper.go:350-353). It fails exactly when there is a cycle or such an id
  (`ValidateDependencies`, `VerdictWhenRegistered`, `FalseAlarm`).
- The depth bound of `GetDependencyGraph` is not a distance: a node first met at the bound is not
  expanded again when met earlier on a shorter path. The result is the set of entities within
  distance d for all catalogs of n entities exactly when d <= 1 or d >= n - 1
  (`ExactnessThreshold`).
- An entity edited in place is re-registered from its new keys (layer2/registration.go:202-204), so
  a change of state leaves a stale listing that no later operation removes. Over any run the
  state index is exact, and the statistics by state add up, if and only if no edit ever changed a
  state (`StateIndexExactIff`, `StatisticsAddUp`). A stale adapter listing can become true again:
  the adapter index is exact if and only if from no point of the run on edits have, on balance,
  taken an adapter away from an entity (`AdapterIndexExactIff`).
- A z-score in a group of n is at most sqrt(n - 1), so medium, high and critical results occur
  exactly for groups of at least 11, 14 and 18 values (`BandOccursIff`), and a threshold of
  sqrt(n - 1) or more never reports anything (`SilentThreshold`, `CanFlagIff`).
- The last checksum commits to the payloads of logs of equal length only; a table whose one payload
  starts with a digest can end like a table of two rows (`LengthMatters`, about tables as they are
  read: `Append` writes JSON texts, and few of them start so), and the columns other
  than payload and checksums and the end of the log are not covered (`OtherColumnsUncovered`,
  `ChainedPrefix`).
- The limiter, described as a token bucket in the program, is a counter that starts over: it grants
  up to 2M - 1 calls in one minute, and that is attained for every M (`GrantBounds`,
  `BoundAttained`).
- The counter is kept under actor, `:` and action joined, so two actors can share one. A refusal always
  follows M grants to the same actor for the same action if and only if no limited action ends in
  `:` followed by another limited action (`RefusalsJustifiedIff`, `OthersDoNotMatter`).
- Auto-approved proposals are executed while still pending, and so may be approved and executed a
  second time, but not a third (`ExecutedTwice`, `RunsOnceIffApprovalRequired`, `ActsBounded`).
- A node accepts its own id as a peer. The hierarchical links are then a star with a loop at the
  coordinator, and a star if and only if the coordinator does not list itself
  (`HierarchicalIsStar`).
- Tightening keeps what a condition accepts exactly for order operators with a positive threshold
  and for conditions it leaves alone, not for `==`, `!=` and negative thresholds
  (`TightenedImpliedIff`).
- Equal priorities leave the policy decision to the order in which an unstable sort leaves them
  (`SettledIff`, `TieUnsettled`).
- A payload of 2^32 bytes or more does not survive the frame (`RoundTripIff`); an empty file sends
  no chunk and so leaves the remote file as it was (`SendFile`); an event about the entity `*`
  reaches a subscriber of everything twice (`WildcardTwice`).

## Model

| member | source | states |
|---|---|---|
| Relationships.RelationshipMapper.ValidateDependencies | layer2/relationship_mapper.go:333-343 | an error is returned if and only if the dependencies have a cycle or some entity reaches an unregistered id by two edges; if all targets are registered, if and only if there is a cycle; the error names a dependency met on the way whose target leads back to its source, or is unregistered and the target of a second dependency |
| Relationships.RelationshipMapper.DetectCycle | layer2/relationship_mapper.go:346-367 | terminates on every graph by the ids not yet visited; an error means a cycle or a doubly reached unregistered id, and names a dependency that closes one or leads to the other; success leaves the visited part off the stack closed and free of cycles |
| Relationships.RelationshipMapper.CheckFrom | layer2/relationship_mapper.go:335-341 | one search with fresh maps clears its root of cycles and of doubly reached unregistered ids, or names a dependency to blame that the root reaches |
| CycleDetection.VerdictWhenRegistered | layer2/relationship_mapper.go:333-367 | with every target registered the verdict is exactly the existence of a cycle |
| CycleDetection.FalseAlarm | layer2/relationship_mapper.go:350-353 | an acyclic diamond over an unregistered id is reported all the same |
| CycleDetection.Enter | layer2/relationship_mapper.go:347-350 | starting on a registered entity keeps the invariant of the search |
| CycleDetection.EnterUnregistered | layer2/relationship_mapper.go:350-353 | returning from an unregistered id leaves it on the stack, pending its one edge |
| CycleDetection.CallReady | layer2/relationship_mapper.go:357-358 | an unvisited target meets what a recursive search starts from, with fewer ids left |
| CycleDetection.CallDone | layer2/relationship_mapper.go:358-361 | a successful recursive search restores the invariant of the loop with one more edge followed |
| CycleDetection.Skip | layer2/relationship_mapper.go:355-363 | a target visited before and off the stack may be passed over |
| CycleDetection.Alarm | layer2/relationship_mapper.go:361-363 | an edge back to the stack proves a cycle or a doubly reached unregistered id, and is itself to blame |
| CycleDetection.Leave | layer2/relationship_mapper.go:365-366 | leaving the stack with all edges followed, the entity lies on no cycle |
| CycleDetection.Completed | layer2/relationship_mapper.go:346-367 | a search that comes back without error has cleared its root |
| CycleDetection.CulpritMeans | layer2/relationship_mapper.go:361-362 | the pair an error names is a dependency of an entity the root reaches; if its target is registered, it lies on a cycle |
| Relationships.RelationshipMapper.GetImpactedEntities | layer2/relationship_mapper.go:299-314 | exactly the registered entities with a non-empty dependency path to the id, each once, cycles included; fails exactly for an unregistered id |
| Relationships.RelationshipMapper.CollectImpactedEntities | layer2/relationship_mapper.go:316-330 | all dependents are collected and closed under dependents; terminates because the collection grows within the catalog |
| Relationships.RelationshipMapper.CollectDependent | layer2/relationship_mapper.go:318-329 | an entity is collected if it depends on the given one, with everything that depends on it |
| ImpactAnalysis.CollectedIsImpacted | layer2/relationship_mapper.go:316-330 | what the recursion collects from nothing is the set of entities with a path to the id |
| ImpactAnalysis.GrownTransitive | layer2/relationship_mapper.go:320-328 | the recursive collection for a dependent extends the collection for the entity itself |
| ImpactAnalysis.UnimpactedIffNoDependents | layer2/registration.go:141-150 | nothing is impacted by an entity if and only if nothing depends on it directly |
| Relationships.RelationshipMapper.GetDependencyGraph | layer2/relationship_mapper.go:90-102 | every node is at most the bound away; with a bound of one less than the number of entities the nodes are exactly the reachable ones; the edges are the relationships of the nodes; when it errs |
| Relationships.RelationshipMapper.BuildGraph | layer2/relationship_mapper.go:104-134 | the shared graph and visited map grow as the value-level search says, for every relationship type; only its own lookup can fail |
| DependencyGraphs.NodesNear | layer2/relationship_mapper.go:104-134 | no node is further away than the bound |
| DependencyGraphs.DeepEnough | layer2/relationship_mapper.go:104-134 | with a bound of at least the number of entities less one, the nodes are exactly the reachable entities |
| DependencyGraphs.EdgesExact | layer2/relationship_mapper.go:117-133 | every relationship of every node is recorded once, in order, and nothing else is |
| DependencyGraphs.ExactnessThreshold | layer2/relationship_mapper.go:104-108 | the bound is a distance for all catalogs of n entities if and only if it is at most one or at least n - 1 |
| DependencyGraphs.ShallowExact | layer2/relationship_mapper.go:104-134 | bounds zero and one find exactly the start and its neighbours |
| DependencyGraphs.ShortcutMissed | layer2/relationship_mapper.go:104-108 | between these bounds some catalog has an entity within the distance that is not found |
| Catalog.EntityCatalog.Register | layer2/catalog.go:31-51 | refuses an empty id; otherwise the entity replaces what had its id and the indexes are refiled; exact indexes stay exact |
| Catalog.EntityCatalog.Unregister | layer2/catalog.go:54-67 | removes entity and listings, or reports that there is none; exact indexes stay exact |
| Catalog.EntityCatalog.CleanupStale | layer2/catalog.go:230-246 | removes exactly the entities last seen before the cutoff and counts them; the indexes afterwards are those of the same removals one by one; exact indexes stay exact |
| Catalog.EntityCatalog.AddToIndexes | layer2/catalog.go:250-261 | adds one listing per key, repeated adapters included |
| Catalog.EntityCatalog.RemoveFromIndexes | layer2/catalog.go:263-274 | takes out one listing per key |
| Catalog.RemoveFromSlice | layer2/catalog.go:276-283 | the list without its first occurrence of the item |
| Catalog.EntityCatalog.ListByType | layer2/catalog.go:96-110 | with an exact index every entity of the type comes once and no other |
| Catalog.EntityCatalog.ListByState | layer2/catalog.go:130-144 | no entity in the state is missing; with an exact index each comes once and no other |
| Catalog.EntityCatalog.ListByAdapter | layer2/catalog.go:113-127 | no entity with the adapter is missing; with an exact index each comes as often as it lists the adapter |
| Catalog.ResolveInOrder | layer2/catalog.go:96-144 | a listing is resolved part by part, in order |
| Catalog.EntityCatalog.List | layer2/catalog.go:83-93 | every entity once, in any order |
| Catalog.EntityCatalog.GetStats | layer2/catalog.go:201-220 | the counts by type add up to the total; those by state do if and only if the state index is exact |
| Catalog.CountsAddUp | layer2/catalog.go:211-217 | the listings of an index that misses nobody count the entities if and only if it is exact |
| Indexes.TotalIsCountIff | layer2/catalog.go:201-220 | the sum over any superset of the used keys is at least the number of entities, and equal exactly when every listing is due |
| Indexes.RefileMult | layer2/catalog.go:40-49 | how often each id is listed under each key after a registration |
| Indexes.RefileExact | layer2/catalog.go:31-51 | registering a fresh object keeps an exact index exact |
| Indexes.RefileInPlaceExact | layer2/registration.go:196-205 | registering an object edited in place keeps an index exact if and only if no key was dropped |
| Indexes.RemoveExact | layer2/catalog.go:54-67 | removing an entity by the keys it shows keeps an exact index exact |
| Catalog.RefiledFor | layer2/catalog.go:31-51 | a fresh registration keeps all three indexes exact, and sound if only that |
| Catalog.RefiledInPlaceFor | layer2/registration.go:202-204 | after an edit in place all three are exact if and only if the state stayed and no adapter was dropped; they stay sound in any case |
| Catalog.DroppedFor | layer2/catalog.go:263-274 | a removal keeps all three exact, and sound if only that |
| CatalogRuns.RunSound | layer2/catalog.go:31-67 | over every run of registrations, edits and removals the type index is exact and no entity is missing under its current state or an adapter |
| CatalogRuns.StateIndexExactIff | layer2/registration.go:196-205 | over every run the state index is exact if and only if no edit ever changed a state |
| CatalogRuns.StatisticsAddUp | layer2/catalog.go:201-220 | over every run the counts by type add up; those by state do if and only if no edit ever changed a state |
| CatalogRuns.AdapterIndexExactIff | layer2/registration.go:107-138 | over every run the adapter index is exact if and only if from no point of the run on the edits of an entity have, on balance, taken an adapter away from it |
| CatalogRuns.ApplyAdapters | layer2/registration.go:107-138 | a step leaves an exact adapter index exact if and only if it is no edit that drops an adapter |
| CatalogRuns.RunStale | layer2/catalog.go:250-274 | over every run an id is listed under an adapter as often as its entity has it, and as often more as the edits left over |
| CatalogRuns.RunContinues | layer2/catalog.go:31-67 | a run followed by the changes of one more operation is a run, so results about runs hold of the catalog after any operations |
| CatalogRuns.ExcessSurvivesEdit | layer2/registration.go:196-205 | an edit in place cannot repair an inexact state index |
| Registration.RegistrationAPI.Register | layer2/registration.go:48-104 | refuses invalid requests; otherwise a fresh entity in state unknown is filed |
| Registration.ValidateRequest | layer2/registration.go:237-274 | accepted exactly with an id, a name and one of the known types; otherwise the first thing missing, in the order id, type, name, known type, is the reason |
| Registration.RegistrationAPI.UpdateState | layer2/registration.go:196-205 | the stored object shows the new state; indexes stay exact if and only if the state is the old one; the exact listings of the id afterwards |
| Registration.RegistrationAPI.Update | layer2/registration.go:107-138 | name and adapters are replaced where given; indexes stay exact if and only if no adapter is dropped |
| Registration.RegistrationAPI.AddCapability | layer2/registration.go:208-217 | the capability is there once; indexes stay exact |
| Registration.RegistrationAPI.AddRelationship | layer2/registration.go:220-234 | accepted only for a registered target; dependencies stay on registered entities |
| Registration.RegistrationAPI.Deregister | layer2/registration.go:141-153 | succeeds exactly for a registered entity that nothing depends on, otherwise says whether it is unknown or how many entities are impacted; dependencies stay on registered entities |
| Registration.RegistrationAPI.ForceDeregister | layer2/registration.go:156-176 | exactly the impacted entities lose exactly their relationships to the id; no dependency on it remains; the indexes afterwards are those of these edits and the removal one by one; dependencies stay on registered entities |
| Registration.RemovalStaysRegistered | layer2/catalog.go:54-67 | a plain removal keeps dependencies on registered entities if and only if no other entity depends on the removed one |
| Registration.DetachedStaysRegistered | layer2/registration.go:156-176 | after the impacted entities are detached no dependency on the id remains and none dangles |
| Registration.LinkedStaysRegistered | layer2/registration.go:220-234 | a relationship to a registered target leaves no dependency dangling |
| Registration.WithoutInOrder | layer2/registration.go:156-176 | the relationships that stay keep their order and number |
| Entities.Entity.GetRelationships | layer2/entity.go:113-121 | the relationships of the type, in order |
| Entities.OfTypeInOrder | layer2/entity.go:113-121 | each relationship is looked at in turn: none is moved, repeated or lost |
| Entities.Entity.AddCapability | layer2/entity.go:84-91 | a capability is added unless it is there |
| TracePropagation.ZBound | layer3/trace_propagation.go:121-152 | the squared z-score of a member of a group of n is at most n - 1 |
| TracePropagation.SquareOfSum | layer3/trace_propagation.go:170-190 | the square of a sum is at most n times the sum of squares |
| TracePropagation.SpikeAttains | layer3/trace_propagation.go:140-152 | the bound is attained for every group size |
| TracePropagation.PossibleIff | layer3/trace_propagation.go:140-152 | a distance t can be exceeded in a group of n if and only if n - 1 > t^2 |
| AnomalyBands.BandOccursIff | layer3/trace_propagation.go:140-152 | with the default threshold results of severity low, medium, high and critical occur for groups of n exactly from n = 10, 11, 14 and 18 on |
| AnomalyBands.CanFlagIff | layer3/trace_propagation.go:102-143 | for n of at least 10 some group of n is reported if and only if n - 1 is above the square of the threshold in force, the default included |
| TracePropagation.DetectAnomalies | layer3/trace_propagation.go:101-168 | every group whose latest value exceeds the threshold is reported once with its figures and band, no other is, and each report respects the group sizes |
| TracePropagation.Group | layer3/trace_propagation.go:120-128 | values per metric in query order, and the first row with the greatest timestamp |
| TracePropagation.MeanVariance | layer3/trace_propagation.go:170-190 | mean and population variance, zero for the empty list |
| TracePropagation.SilentThreshold | layer3/trace_propagation.go:102-143 | a threshold in force of sqrt(n - 1) or more silences a group of n |
| TracePropagation.FlaggedMeans | layer3/trace_propagation.go:102-143 | a group is reported if and only if it has ten values and the latest is more than the threshold times the standard deviation off the mean, two and a half times if the threshold is zero |
| TracePropagation.BandMeans | layer3/trace_propagation.go:144-152 | a score beyond 4, 3.5 and 3 on either side is critical, high and medium; any other is low |
| EventLogs.CleanIffChained | storage/eventlog.go:132-171 | verification finds nothing if and only if every row continues the chain and carries its checksum |
| EventLogs.ViolationsMean | storage/eventlog.go:149-166 | a violation is reported if and only if it stands for a row whose previous checksum is not that of the row before, or whose checksum is not its own, with both values |
| EventLogs.ViolationsInOrder | storage/eventlog.go:140-168 | violations come row by row, that of the link before that of the checksum, and none twice |
| EventLogs.RunVerifies | storage/eventlog.go:33-70 | after any appends, failed inserts and reopenings the log verifies cleanly and holds exactly the accepted payloads in order |
| EventLogs.AppendKeepsChain | storage/eventlog.go:47-70 | an append keeps the chain if and only if it was made from the checksum of the last row |
| EventLogs.LastChecksumCommits | storage/eventlog.go:132-171 | two clean logs of equal length and equal last checksum have the same payloads, or a collision is returned |
| EventLogs.LastChecksumCommitsAnyLength | storage/eventlog.go:132-171 | the same for any lengths if no first payload looks like a digest |
| EventLogs.LengthMatters | storage/eventlog.go:57-64 | for every hash there are tables of lengths one and two that pass verification and end in the same checksum |
| EventLogs.EditDetected | storage/eventlog.go:132-171 | replacing a payload in a clean log is found unless, and only unless, the two hash inputs collide |
| EventLogs.GapDetected | storage/eventlog.go:132-171 | taking rows out of the middle of a clean log is found if and only if the checksums on both sides differ |
| EventLogs.ChainedPrefix | storage/eventlog.go:132-171 | every prefix of a chained log is chained, so cutting off its end is never reported |
| EventLogs.OtherColumnsUncovered | storage/eventlog.go:57-64 | the verdict does not depend on type, entity and node |
| EventLogs.EventLog.Append | storage/eventlog.go:47-70 | which error, which row with which columns, which checksum is remembered; a failed insert changes nothing |
| EventLogs.EventLog.VerifyIntegrity | storage/eventlog.go:132-171 | fails if the query fails; otherwise counts all rows, lists the violations row by row, and lists none if and only if the log is chained |
| EventLogs.EventLog.constructor | storage/eventlog.go:33-44 | opening resumes from the checksum of the last row |
| RuleEngines.Rule.MatchesSummary | layer6/rule_engine.go:223-259 | all conditions hold for the summary; an unknown metric does not |
| RuleEngines.Rule.MatchesEvent | layer6/rule_engine.go:197-220 | all conditions hold for the event |
| Rules.MetricsAreRead | layer6/rule_engine.go:228-257 | a rule about a metric compares the figure of that name, built in or from the map |
| Rules.OperatorsCompare | layer6/rule_engine.go:262-278 | each operator is the comparison it is written as |
| Rules.EventMetricsAreRead | layer6/rule_engine.go:210-218 | a rule about a metric compares the figure of that name of the event, and fails without it |
| Rules.EventTextsAreRead | layer6/rule_engine.go:197-227 | a type is compared whole, a text is looked for in description and type; no summary has a type, and texts do not matter to it |
| Rules.RulesAreConjunctions | layer6/rule_engine.go:197-260 | a rule matches what all its parts match; one without conditions matches nothing |
| RuleEngines.Rule.Tune | layer6/learning.go:75-119 | said by the counts: with ten outcomes and fewer than 70 successes in a hundred every threshold is multiplied by 0.95 (`>`, `>=`) or 1.05, with twenty and more than 85 by 1.02 or 0.98, else by one; ten successes and no failure promote; nothing else changes |
| RuleEngines.RuleEngine.TuneThresholds | layer6/learning.go:69-123 | the same for every rule, in place |
| RuleEngines.RuleEngine.AddRule | layer6/rule_engine.go:28-40 | takes the place of the rule with the id, or comes last |
| RuleEngines.RuleEngine.RemoveRule | layer6/rule_engine.go:43-53 | the rule with the id is taken out and the others keep their order |
| RuleEngines.RuleEngine.Evaluate | layer6/rule_engine.go:80-101 | the first of the matching enabled rules with the highest priority proposes, and the draft is its own; none proposes if and only if none matches |
| RuleEngines.RuleEngine.EvaluateSummary | layer6/rule_engine.go:105-124 | there is one draft for each enabled matching rule and no other, in order, about the entity of the action or else the system |
| RuleEngines.RuleEngine.UpdateStats | layer6/rule_engine.go:127-141 | the first rule with the id counts one more success or failure |
| RuleEngines.RuleEngine.BuildProposal | layer6/rule_engine.go:144-193 | the draft names rule, action, entity and priority; confidence times outcomes is successes, or 0.75 without outcomes; approval is required unless the rule approves by itself and has at most five outcomes or seven successes in ten |
| Rules.TightenedImpliedIff | layer6/learning.go:78-92 | the old condition implies the tightened one if and only if it is an order with a positive threshold, or has no metric, a zero threshold or an unknown operator |
| Rules.RelaxedImpliesIff | layer6/learning.go:95-110 | the relaxed condition implies the old one under the same condition |
| Rules.TuningDirection | layer6/learning.go:69-110 | tightening loses no matching summary and relaxing gains none for rules of such conditions |
| Rules.TuningFromCounts | layer6/learning.go:69-119 | the tuning function does what the counts say: which thresholds move, by which factor, and when a rule is promoted |
| Rules.LearningDirection | layer6/learning.go:69-110 | a rule that often fails loses no matching summary by tuning and one that often succeeds gains none, for conditions of an order with positive thresholds |
| Rules.ThresholdsBounded | layer6/learning.go:69-110 | over every run a positive threshold stays positive and within 0.95^n and 1.05^n of the first |
| Rules.RunCounts | layer6/rule_engine.go:127-141 | the counts of a rule are those at the start and the recorded successes and failures |
| Rules.RunPromotes | layer6/learning.go:112-119 | a rule approves by itself if and only if it was set so or some tuning found at least ten successes and no failure on record |
| Rules.TrustIsEarned | layer6/rule_engine.go:144-150 | a proposal needs no approval if and only if the rule was set so or promoted and has 3s >= 7f or at most five outcomes; if not set so, its record begins with ten successes |
| Proposals.RunOrderly | layer6/manager.go:108-204 | the invariant behind the lifecycle holds in every interleaving |
| Proposals.Lifecycle | layer6/manager.go:153-204 | an approval-required proposal is pending, or rejected and counted once, or some way along one execution, and its status says so |
| Proposals.RunsOnceIffApprovalRequired | layer6/manager.go:277-318 | at most one execution in every interleaving if and only if approval is required |
| Proposals.ExecutedTwice | layer6/manager.go:123-124 | an auto-approved proposal of any rule, approved in time, is executed twice |
| Executions.ActsBounded | layer6/manager.go:277-318 | in every interleaving a proposal is approved at most once and acts at most once for that, and once more if no approval was required |
| Executions.ApprovedGetsDone | layer6/manager.go:153-181 | however other steps fall between them, once its goroutine has had four turns an approved proposal has begun, acted, settled and been counted, and is completed or failed as the executor answered |
| Executions.TurnsAdvance | layer6/manager.go:277-318 | in every interleaving a goroutine with an executor gets one effect further with each of its turns, up to the last |
| Trust.SkippingApprovalIsEarned | layer6/learning.go:112-119 | in every interleaving of evaluations, decisions, executions and tunings a proposal skips approval only if its rule was set so or its record begins with ten successes |
| Trust.RunKeeps | layer6/manager.go:108-204 | the invariant behind it holds in every such interleaving |
| Proposals.CountsAreOutcomes | layer6/learning.go:23-27 | in every interleaving the counts are what the recorded outcomes make of the initial ones |
| Proposals.TallyGrowth | layer6/rule_engine.go:127-141 | with distinct rule ids each rule grows by exactly its own successes and failures |
| Managers.Manager.ProcessEvent | layer6/manager.go:108-128 | stores what the engine proposes as a pending proposal, as one step; a goroutine is started at once if and only if no approval is needed |
| Managers.Manager.ApproveProposal | layer6/manager.go:153-181 | succeeds exactly for the first proposal with the id if it is pending, which is then approved and has a new goroutine; one step |
| Managers.Manager.RejectProposal | layer6/manager.go:184-204 | succeeds exactly for the first proposal with the id if it is pending, which is then rejected and counted as one failure of its rule and of no other; one step |
| Managers.Manager.ExecuteStep | layer6/manager.go:277-318 | each effect of the executing goroutine is one step, in the order of the program |
| Managers.Manager.RecordOutcome | layer6/learning.go:23-27 | one more success or failure for the rule of the proposal, if it names one, and for no other |
| MeshProtocol.LengthRoundTrip | layer1/mesh_protocol.go:136-141 | the length read back is the length modulo 2^32 |
| MeshProtocol.LengthsInOrder | layer1/mesh_protocol.go:136-141 | lengths are big-endian: the greater length has the greater byte where the two first differ |
| MeshProtocol.FrameLayout | layer1/mesh_protocol.go:126-152 | the frame of a short message byte by byte |
| MeshProtocol.RoundTripIff | layer1/mesh_protocol.go:126-183 | a message is read back as it was, whatever follows, if and only if its payload is shorter than 2^32 |
| MeshProtocol.ParseCanonical | layer1/mesh_protocol.go:155-183 | what is read as a message is its encoding |
| MeshProtocol.StreamRoundTrip | layer1/mesh_node.go:73-77 | the encodings of messages that fit are read back as the same messages, then the end |
| MeshProtocol.StreamCanonical | layer1/mesh_node.go:73-77 | every stream starts with the encodings of the messages read from it, and the rest is no message |
| MeshProtocol.TruncatedStream | layer1/mesh_protocol.go:155-183 | from any prefix the complete leading messages are read and then an error |
| MeshProtocol.FailuresMean | layer1/mesh_protocol.go:155-183 | which error is returned for what: fewer than ten bytes, a wrong magic, another version, or, exactly, a proper prefix of some message with all of its header |
| MeshProtocol.WriteMessage | layer1/mesh_protocol.go:126-152 | writes the encoding, nothing if the payload cannot be encoded, or a prefix if the connection breaks; succeeds exactly if all of it was written |
| MeshProtocol.ReadMessage | layer1/mesh_protocol.go:155-183 | reads what the parser says and leaves the rest, with its error |
| MeshProtocol.ReadAll | layer1/mesh_node.go:73-77 | the message loop reads all the parser reads |
| FileTransfer.MeshNode.WriteFileChunk | layer1/mesh_node.go:181-197 | truncates for offset zero, writes at the offset, and says what a failing write leaves |
| FileTransfer.SendFile | layer1/mesh_adapter.go:437-468 | on success a non-empty file is remote what it is here; on failure, at which chunk and with what left behind |
| FileTransfer.FinalIsLast | layer1/mesh_adapter.go:437-448 | the final mark is on exactly the last chunk |
| FileTransfer.NextChunk | layer1/mesh_node.go:181-197 | after k acknowledged chunks the remote file is the prefix of k chunks, whatever it held before |
| FileTransfer.FailureLeavesPrefix | layer1/mesh_node.go:181-197 | a failing chunk leaves a prefix of the data that is no shorter |
| FileTransfer.ReceiverAssembles | layer1/mesh_node.go:181-197 | after chunk zero the earlier contents do not matter |
| FileTransfer.AnyOrder | layer1/mesh_node.go:181-197 | after chunk zero any order and repetition of all other chunks rebuilds the file |
| FileTransfer.AnyOrderIff | layer1/mesh_node.go:181-197 | for all data, the file is rebuilt if and only if the last chunk came and every byte of a missing chunk is zero |
| FileTransfer.LastStartDecides | layer1/mesh_node.go:181-197 | with repeated chunk zeros only what follows the last one matters |
| Coordinators.MeshCoordinator.Elect | layer1/mesh_coordinator.go:73-85 | the least of the peers and the own id is coordinator |
| Coordinators.MeshCoordinator.UpdatePeers | layer1/mesh_coordinator.go:35-42 | replaces the peers and elects |
| Coordinators.MeshCoordinator.AddPeer | layer1/mesh_coordinator.go:45-56 | adds the id at the end unless it is listed, and elects; one's own id is not refused |
| Coordinators.MeshCoordinator.RemovePeer | layer1/mesh_coordinator.go:59-70 | removes the first occurrence, and elects |
| Coordinators.MeshCoordinator.ShouldConnectTo | layer1/mesh_coordinator.go:111-134 | the connections of the topology |
| Coordinators.AtMostMeans | layer1/mesh_coordinator.go:73-85 | ids are in the order of the library: a prefix first, otherwise the first difference decides |
| Coordinators.OrderDoesNotMatter | layer1/mesh_coordinator.go:35-85 | nodes with the same id and the same set of peers elect alike |
| Coordinators.Agreement | layer1/mesh_coordinator.go:73-85 | nodes with complete views all elect the least id, and exactly one thinks itself coordinator |
| Coordinators.HierarchicalIsStar | layer1/mesh_coordinator.go:111-134 | the hierarchical links are a star of n - 1 links around the coordinator, with a loop if it lists itself, and so a star if and only if it does not |
| Coordinators.FullMeshIsComplete | layer1/mesh_coordinator.go:111-134 | the full-mesh links are all pairs of nodes and a loop for every node that lists itself |
| RateLimits.RateLimiter.Allow | policy/rate_limiter.go:37-65 | which calls are allowed and what the counter becomes, as the function on values that the lemmas on grants and refusals are about |
| RateLimits.RateLimiter.SetLimit | policy/rate_limiter.go:30-34 | the action gets the maximum, the counters stay as they are |
| RateLimits.GrantBounds | policy/rate_limiter.go:37-65 | over every run at most M grants between resets and at most 2M - 1 in a closed minute, shared counters included |
| RateLimits.BoundAttained | policy/rate_limiter.go:37-65 | a run with 2M - 1 grants in a minute, for every M |
| RateFairness.RefusalJustified | policy/rate_limiter.go:37-65 | over every run a refused call comes after at least M grants to that actor for that action in the closed minute before it, if no limited action can be read as the end of another actor and action |
| RateFairness.RefusalsJustifiedIff | policy/rate_limiter.go:46 | all refusals of all runs are justified so if and only if no limited action ends in `:` followed by another limited action |
| RateFairness.OthersDoNotMatter | policy/rate_limiter.go:37-65 | under that condition calls of other actors or for other actions never change an answer |
| RateFairness.PlainActionsSeparate | policy/rate_limiter.go:46 | limited actions without `:` meet the condition |
| RateFairness.UnlimitedGranted | policy/rate_limiter.go:41-44 | a call for an action without a limit, or with a limit of zero or less, is granted |
| PolicyEngines.Engine.Evaluate | policy/engine.go:69-114 | allowed if and only if the limiter lets the call through and, at the first enabled policy in scope with an applying rule, the first such rule says allow; the answer names that policy and rule; a refused limit and no applying rule are denials with their own reasons |
| PolicyEngines.DecisionObeys | policy/engine.go:82-114 | there is a deciding policy and rule or none applies; the decision is what the former says, or a denial |
| PolicyEngines.PatternsAreFor | policy/engine.go:127-147 | action, resource and actor patterns are matched against action, resource and actor |
| PolicyEngines.ConditionsAreFor | policy/engine.go:149-178 | each operator of a condition compares the context value of its field |
| PolicyEngines.TenantsApart | policy/engine.go:82-92 | a disabled policy never decides, nor one of another tenant if both name one |
| PolicyEngines.PermitBound | policy/engine.go:69-80 | over every run of evaluations, whatever policies come and go, an actor is allowed an action at most 2M - 1 times in a closed minute |
| PolicyEngines.Engine.AddPolicy | policy/engine.go:26-41 | replaces the policy with the id or adds it; ids stay unique and priorities descending |
| PolicyEngines.Engine.RemovePolicy | policy/engine.go:44-54 | exactly the policy with the id goes, and the others keep their order |
| PolicyEngines.SortByPriority | policy/engine.go:121-125 | the same policies in descending order |
| PolicyEngines.MatchAny | policy/engine.go:134-147 | no pattern, a star, or a matching pattern |
| PolicyEngines.MatchRule | policy/engine.go:127-178 | actors, actions, resources and all conditions match |
| PolicyEngines.DecidedByTop | policy/engine.go:82-114 | a request is decided by an applicable policy of the highest priority, or denied if none applies |
| PolicyEngines.SettledIff | policy/engine.go:121-125 | the effect is independent of the order among equal priorities if and only if the top policies agree |
| PolicyEngines.TieUnsettled | policy/engine.go:121-125 | two policies of equal priority that do not settle any request |
| PolicyEngines.ArrangementUnique | policy/engine.go:121-125 | with distinct priorities there is only one sorted list |
| PolicyEngines.AddOrderDoesNotMatter | policy/engine.go:26-54 | with distinct ids and priorities the order of additions does not matter |
| EventStreams.StreamSafety | layer3/event_stream.go:82-153 | in every interleaving no closed channel is sent to or closed; accepted events are stored, in hand or buffered in order; each subscriber gets a matching subsequence in order |
| EventStreams.RunKeeps | layer3/event_stream.go:41-153 | the invariant behind it holds in every interleaving |
| EventStreams.NoEventTwice | layer3/event_stream.go:129-153 | an event comes twice to a subscriber only if it is about the entity `*` |
| EventStreams.WildcardTwice | layer3/event_stream.go:129-153 | and then it does |
| Deliveries.NotifyDelivers | layer3/event_stream.go:129-153 | an announcement puts the event at the end of the queue of every channel listed for its entity or for everything, once per listing while there is room, and changes no other |
| Deliveries.GotIffServed | layer3/event_stream.go:113-153 | over every run a channel was sent a stored event if and only if it was listed with room when the event was announced |
| Deliveries.ProcessedNext | layer3/event_stream.go:113-126 | the oldest buffered event is the next to be stored and announced |
| Deliveries.UnsubscribeEnds | layer3/event_stream.go:93-105 | an unsubscribed channel is closed and listed no more; an unlisted one changes nothing |
| EventStreams.NotifyKeeps | layer3/event_stream.go:129-153 | both rounds of an announcement keep every channel faithful to the store |
| EventStreams.UnsubscribeKeeps | layer3/event_stream.go:93-105 | a channel is closed once, when it leaves its list |
| EventStreamObjects.EventStream.Publish | layer3/event_stream.go:41-55 | accepted exactly with room in the buffer, or handed over without one; otherwise nothing changes |
| EventStreamObjects.EventStream.Subscribe | layer3/event_stream.go:82-90 | a new open channel at the end of its list |
| EventStreamObjects.EventStream.Unsubscribe | layer3/event_stream.go:93-105 | the first listing goes and its channel is closed without a panic |
| EventStreamObjects.EventStream.TakeNext | layer3/event_stream.go:113-119 | the oldest buffered event is taken in hand |
| EventStreamObjects.EventStream.StoreEvent | layer3/event_stream.go:119-121 | the event in hand is stored before it is announced |
| EventStreamObjects.EventStream.Stop | layer3/event_stream.go:115-117 | a waiting goroutine ends when the context is cancelled |
| EventStreamObjects.EventStream.NotifySubscribers | layer3/event_stream.go:129-153 | every channel listed for the entity or for everything gets the event at the end, once per listing while it has room, and no other does, without a panic |

## Left out

- MapRelationships and the relationship detectors: heuristics over names and metadata that only add relationships.
- Search and its criteria: a read-only filter.
- Registration.RegistrationAPI.Register: detection of capabilities and mapping of relationships on request are left out.
- BulkRegister: a loop over Register.
- Metadata of entities and relationships: carried along, never decided on.
- RateLimits.GrantBounds: the limit does not change during a run.
- Registration.RegistrationAPI.Update: typed options stand for the map of updates; endpoint and metadata are left out.
- FileTransfer.SendFile: one peer; opening and reading the local file is not part of the model.
- MeshProtocol.WriteMessage: encoding and decoding of payloads by gob is a parameter.
- Managers.Manager.ProcessEvent: ProcessSummary, loading of rules and proposals at start, and persistence of proposals are left out; a store is taken to be present.
- Managers.Manager.RecordOutcome: only the effect on the counts of the rule; incident and learning records are rows in a database.
- RuleEngines.RuleEngine.BuildProposal: risk, parameters, reason text, expiry and the time a rule last fired are left out.
- RuleEngines.RuleEngine.TuneThresholds: the texts that describe the changes are left out.
- EventLogs.EventLog.VerifyIntegrity: rows that cannot be scanned, which are skipped, are left out; rows are numbered by position.
- RecommendTopology: a threshold on the number of nodes.
- MinePatterns: a query over the incident table that only makes suggestions.
- Replay, ReplayEntity, Tail and Count of the event log: reads that change nothing.
- EventStreams.StreamSafety: stores that fail are left out; the program ignores what the store answers.
- Data races between goroutines that touch a proposal without the lock: each such access is one step of the interleaving.
- Adapters for HTTP, SSH, gRPC and MQTT, mesh discovery and reconnection, TLS, audit store, tenants, loaders: network and library calls.
- Layers 4 and 5: snapshots share objects with the live state, and the runtimes are simulated; neither keeps an invariant worth a model here.
