# Verification model of the agent control plane

A Dafny model of the decision logic in the control plane of an agent build system, and proofs of
what it promises. It covers five groups.

- **The backlog scheduler as a concurrent protocol.** `Backlog` is the scheduling decision over a
  snapshot. `BacklogProtocol` is a state machine in which every repository call is one atomic step:
  any number of passes, each with its own stale snapshots, interleave, crash anywhere, and race the
  operator and the run workers. `BacklogPass` tells what one pass leaves behind. `BacklogService` is
  the service's code, a class over the shared rows; every call it makes is shown to be a step of the
  protocol, so the protocol's theorems are theorems about that code under interference.
- **Event-sourced reducers behind a bounded window of known ids.** `EventWindow` is generic in the
  reducer; `FeatureWorkflow`, `GoalWorkflow` and `Lifecycle` (runs and approvals) are its clients;
  `FeatureHistory` tells a feature workflow from its history alone.
- **The budget ledger.** `UsageCost` is the exact ceiling arithmetic, `Budget` the ledger,
  `BudgetAdmission` what it answers to a request and keeps of it.
- **Compilers, printers and checkers.** `GlobRegex` compiles globs to regular expressions;
  `CanonicalJson` holds the two canonical printers and a parser that undoes them, `CanonicalLength`
  how long, and how short, their text is; `ConfigDiff` is the structural difference of
  configurations, `ConfigReport` what its changes say, and `ConfigSchema` the configuration schema,
  as far as it fixes key order; `ArtifactCapability` is the issuer and the verifier of signed tokens,
  and `ArtifactToken` what they promise; `ArtifactKey` is the key codec, `PublicationManifest` the
  manifest checks, `DependencyCheck` the depth-first cycle search.
- **The resumable scan** (`RunScan`) and two loops of the service (`ServiceLoops`).

`Wrappers`, `Numbers`, `Texts`, `TextOrder`, `TextCodec` and `Permutations` are shared by these.
Strings compared or printed by code unit are sequences of UTF-16 code units (`Text`); identifiers
that are only compared for equality are `string`.

Exceptions and error returns are `Option` and `Result` values. Hashes, the MAC, base64url, UTF-8 and
ISO-8601 text are parameters, and so is JSON.parse; `ArtifactCapability.Lawful` lists everything that
is asked of them, and `ArtifactToken.TheLawsCanBeMet` gives an instance.
`dafny verify dfyconfig.toml` checks the project.

One promise is false of the code as it stands. The model keeps the code, and the exact condition
under which the promise holds is proved. The pattern for key ids admits a dot, but a token is split at
its dots. `ArtifactToken.IssuedVerifies`: an issued token verifies for a matching request if and only if
its key id has no dot. `ArtifactToken.DottedKeyIsRefused`: issuer and verifier both take the key id
`a.b`, and no token issued with it is ever accepted.

Where text and code differ the model follows the code: the message "dependency cycle involving X"
names a step from which a cycle can be reached, and X need not lie on it (`DependencyCheck`); the
scheduling decision also dispatches a `running` item that has no run, a state that the protocol
proves unreachable (`Backlog.DispatchExactly`, `BacklogProtocol.ItemInv`).

## Model

| member | source | states |
|---|---|---|
| Backlog.AdvanceBacklog | packages/core/src/backlog.ts:83-137 | the one-pass loop with early returns computes the verdict on the first item that is neither succeeded nor skipped, with the base left by the items before it |
| Backlog.BaseRunIsNearest | packages/core/src/backlog.ts:93-103 | the base is the run of the nearest earlier succeeded item that has one, and there is none only if no earlier succeeded item has a run |
| Backlog.DispatchExactly | packages/core/src/backlog.ts:93-134 | an item is dispatched on a base if and only if the backlog is active, the item has no run and has not failed, all before it are settled, and the base is the nearest one and published |
| Backlog.CompleteExactly | packages/core/src/backlog.ts:83-137 | a backlog completes if and only if it is active, not empty, and every item is succeeded or skipped |
| Backlog.PauseExactly | packages/core/src/backlog.ts:106-133 | the decision pauses for a reason if and only if the backlog is active and its first open item gives that reason: its run is missing, failed or was cancelled, it failed without a run, or its base is missing or unpublished |
| Backlog.IdleExactly | packages/core/src/backlog.ts:83-122 | the decision idles if and only if the backlog is not active, has no items, or its first open item has a run that is under way or has succeeded |
| Backlog.SortSorts | packages/core/src/backlog.ts:83-94 | sorting by ordinal gives a permutation in ascending order |
| BacklogProtocol.StepKeepsInv | apps/control-plane/src/application/control-plane-service.ts:2482-2621 | every step of any pass, crash, operator action or run worker keeps the invariant, and no settled item, attached run or recorded chain ever moves back |
| BacklogProtocol.RunOnlyAdvances | apps/control-plane/src/application/control-plane-service.ts:2482-2621 | between any two moments of a run settled items stay as they are, attached runs stay attached, and succeeded runs and the input of every run stay |
| BacklogProtocol.OneRunningItem | apps/control-plane/src/application/control-plane-service.ts:2482-2621 | at any moment at most one item is running, and everything before an item that has a run is succeeded or skipped |
| BacklogProtocol.OneRunPerItem | apps/control-plane/src/application/control-plane-service.ts:2574-2621 | an item only ever holds the run generated for its ordinal, never loses it, and that run's chain is never rewritten |
| BacklogProtocol.SameItemSameBase | apps/control-plane/src/application/control-plane-service.ts:2515-2535 | two passes at two moments that mean to dispatch one item mean the same base, which is still the right one at the later moment |
| BacklogProtocol.OnlyConfigurationConflicts | packages/core/src/persistence.ts:729-762 | a second creation of an item's run is refused if and only if the configuration revision differs: the chain, branch and commit always agree |
| BacklogProtocol.RunsFormALine | apps/control-plane/src/application/control-plane-service.ts:2272-2357 | the run of an item was created on what the run of the nearest earlier succeeded item published, with only skipped items between; without one all earlier items are skipped |
| BacklogProtocol.NoFork | apps/control-plane/src/application/control-plane-service.ts:2574-2621 | two items' runs share a base, or both have none, only if the earlier item is now skipped |
| BacklogProtocol.CompletedStays | apps/control-plane/src/application/control-plane-service.ts:2518-2546 | in any run a completed backlog stays completed, whatever passes are still on their way |
| BacklogProtocol.AttachKeepsInv | packages/adapters/src/persistence/in-memory.ts:1878-1994 | the compare-and-set attach keeps the invariant even when its pass decided on a stale snapshot |
| BacklogProtocol.DecisionIsRight | packages/core/src/backlog.ts:83-137 | a decision taken on the rows as listed now, with an older map of runs, dispatches the right item on the right base |
| BacklogPass.SettlingWrites | apps/control-plane/src/application/control-plane-service.ts:2549-2572 | a settling step on an item that is still running writes succeeded if and only if the run read had succeeded and failed if and only if it had failed or been cancelled, and otherwise leaves every row alone |
| BacklogPass.OnePass | apps/control-plane/src/application/control-plane-service.ts:2482-2621 | a pass that nothing interferes with leaves every listed item settled as its run ended, and then makes the one move the first open item calls for: nothing while it waits, completion, a pause, or its run created on the right base and attached, or a pause if that is refused |
| BacklogPass.NoEndedRunIsLeft | apps/control-plane/src/application/control-plane-service.ts:2549-2572 | after such a pass a listed item that was running is succeeded, failed or still running if and only if its run has succeeded, has failed or been cancelled, or is under way |
| BacklogService.ReachesKeepsInv | apps/control-plane/src/application/control-plane-service.ts:2482-2536 | whatever a pass and its surroundings do together keeps the protocol's invariant and only moves forward |
| BacklogService.Service.AdvanceBacklogs | apps/control-plane/src/application/control-plane-service.ts:2482-2536 | the pass, with anything happening between its calls, goes from start to end by steps of the protocol, without a crash |
| BacklogService.Service.ReadRuns | apps/control-plane/src/application/control-plane-service.ts:2492-2510 | reading the runs of the listed items one by one is a series of protocol steps that ends with the map of what was read |
| BacklogService.Service.SettleBacklogItems | apps/control-plane/src/application/control-plane-service.ts:2549-2572 | settling goes through the listed items one by one, each by a settling step on the rows as they are then; BacklogPass.SettlingWrites says what such a step writes |
| BacklogService.Service.PauseBacklog | apps/control-plane/src/application/control-plane-service.ts:2538-2546 | a pause is a compare-and-set from active |
| BacklogService.Service.DispatchBacklogItem | apps/control-plane/src/application/control-plane-service.ts:2574-2621 | creating the run and attaching it are separate steps with anything between them; a refusal before, or a failure after, the creation pauses; a lost attach just ends the pass |
| BacklogService.Service.CreateRun | apps/control-plane/src/application/control-plane-service.ts:2623-2765 | a run is created, or found, under the item's id with the chain of its published base, or refused |
| BacklogService.Service.SetBacklogStatus | apps/control-plane/src/application/control-plane-service.ts:2412-2431 | the operator's pause and resume each take effect from the opposite status only, change nothing else, and are protocol steps |
| EventWindow.RecordProcessedEvent | packages/core/src/events.ts:67-85 | the shift-and-delete loop keeps the last 256 ids and removes exactly the digests of the ids that fell out |
| EventWindow.SliceRefinesShift | packages/core/src/goal-workflow.ts:92-130 | the goal workflow's slice and map rebuild make the same window, and the same judgement of every event, as the shared loop |
| EventWindow.RecordingRemembers | packages/core/src/events.ts:67-85 | recording a new event keeps the window equal to the last 256 accepted events: no id twice, digests for exactly those ids |
| EventWindow.DispositionByHistory | packages/core/src/events.ts:45-65 | an event is new, a duplicate or a reused id according to the last 256 accepted events alone |
| EventWindow.ReplayRemembers | packages/core/src/events.ts:45-85 | after any replay the window holds exactly the last 256 of all accepted events |
| EventWindow.RedeliveryIsInvisible | packages/core/src/events.ts:45-85 | a replay with redeliveries of recently accepted events put in anywhere ends as the replay without them |
| EventWindow.ReplayIsSteps | packages/core/src/events.ts:45-85 | what a replay ends in is what its accepted events, one after the other, make of the state |
| EventWindow.StepsReplay | packages/core/src/events.ts:45-85 | conversely a chain of steps for events with ids of their own is what replaying those events does, and all of them are accepted |
| EventWindow.ReplaysExactly | packages/core/src/events.ts:45-85 | for a reducer whose state tells which histories allow which events, events with ids of their own are replayed if and only if each is allowed by those before it |
| EventWindow.NextIsJudged | packages/core/src/events.ts:45-85 | after any replay, redeliveries included, the accepted events were each allowed in turn, and a new event is accepted if and only if they allow it |
| FeatureWorkflow.StepLowersMeasure | packages/core/src/feature-workflow.ts:160-306 | every accepted new event strictly lowers a measure linear in the retry limit, but for a crash while already blocked, which changes nothing; retries pass the limit only in a retry_limit failure |
| FeatureWorkflow.ReplayIsBounded | packages/core/src/feature-workflow.ts:132-146 | a replay accepts at most 5 * maxRetries + 8 events besides crashes of a blocked workflow, and the retry count exceeds the limit by one only in the failure it causes |
| FeatureWorkflow.StepReflects | packages/core/src/feature-workflow.ts:160-306 | of a workflow that is not over, or has succeeded, phase and retry count after every event are fixed by the history: its gate events without crashes, its failed rounds, its blocking crashes |
| FeatureWorkflow.SuccessPassedEveryGate | packages/core/src/feature-workflow.ts:160-317 | a replay that ends succeeded took the four preparations, then fixed failed attempts, then tests, review, policy and, last of all, the bound publication, with one retry for each failed attempt and each blocking crash; gates were passed only while not blocked |
| FeatureWorkflow.EveryGateSucceeds | packages/core/src/feature-workflow.ts:160-317 | conversely a replay of distinct valid events with such a history, whatever crashes and resumes interrupt it, is accepted whole and ends succeeded, if its failed attempts and blocking crashes are within the retry limit |
| FeatureWorkflow.SuccessWasBound | packages/core/src/feature-workflow.ts:276-303 | success has a draft publication whose attestation carries the trusted source and the workflow's own binding |
| FeatureHistory.AcceptedExactly | packages/core/src/feature-workflow.ts:160-306 | after any replay a new event is accepted if and only if the history allows it: nothing after the end, cancellation, exhaustion and crashes at any time before, a resume after a crash, the gates that are due otherwise, a publication only if bound; status, phase, retries, reason and publication are what the history tells |
| FeatureHistory.LawfulHistoriesReplay | packages/core/src/feature-workflow.ts:160-317 | events with ids of their own are replayed, all of them, if and only if each is allowed by those before it |
| FeatureHistory.EndingByHistory | packages/core/src/feature-workflow.ts:132-306 | failed if and only if the last accepted event is a rejection, or a failed gate or crash past the retry limit; cancelled, exhausted, succeeded if and only if it is the cancellation, the exhaustion, the publication; each with its reason |
| FeatureWorkflow.FeatureRedeliveryIsInvisible | packages/core/src/feature-workflow.ts:160-317 | redelivered events leave a feature workflow's replay unchanged |
| GoalWorkflow.DetectStuck | packages/core/src/dod.ts:224-239 | stuck if and only if some fingerprint occurs at least threshold times; the reported one does, and otherwise the reported count is the largest there is |
| GoalWorkflow.AssertCompleteResults | packages/core/src/goal-workflow.ts:132-155 | a result list is accepted if and only if its ids are a permutation of the criteria's ids |
| GoalWorkflow.CreateGoalWorkflow | packages/core/src/goal-workflow.ts:43-86 | a goal is created if and only if the step limit is in range and the criteria are non-empty, complete and have distinct ids |
| GoalWorkflow.GoalWindowRefines | packages/core/src/goal-workflow.ts:92-130 | with its own window the goal workflow replays as it would behind the shared one |
| GoalWorkflow.GoalRedeliveryIsInvisible | packages/core/src/goal-workflow.ts:163-242 | redelivered events leave a goal workflow's replay unchanged |
| GoalWorkflow.StepStandsAlone | packages/core/src/goal-workflow.ts:195-235 | complete results leave nothing of earlier steps to count: all required criteria pass if and only if this step's results pass them |
| GoalWorkflow.GoalRunReflects | packages/core/src/goal-workflow.ts:163-242 | steps 1, 2, ... are evaluated in order, at most maxSteps of them; succeeded if and only if the last one passes; failed as stuck if and only if it does not and a fingerprint reached three; for want of steps if and only if neither and all are spent; crashed or cancelled if and only if that was the last event; the results kept are the last step's |
| GoalWorkflow.GoalAcceptsExactly | packages/core/src/goal-workflow.ts:163-235 | after any replay a new event is accepted if and only if the goal is not over and it is the first event and a start, a cancellation, a crash, or the complete results of the next step of a started goal |
| GoalWorkflow.FailuresCount | packages/core/src/goal-workflow.ts:209-214 | every failed result is counted once, under its own fingerprint |
| Lifecycle.LifecycleEnds | packages/core/src/lifecycle.ts:42-104 | in any replay each event may follow the one before it, so an ending event is the last and success follows a start or a resume; each status is reached by its own last event and no other; a new event is accepted if and only if it may follow the last one |
| Lifecycle.OneDecision | packages/core/src/lifecycle.ts:149-217 | an approval takes at most one event, which names this scope and is not before the request; it ends approved, rejected or expired if and only if that event approves or rejects before the expiry, or comes at it or later, and it keeps who, when and why; while pending every such new event is accepted |
| UsageCost.CostRounds | packages/core/src/budget.ts:40-127 | the cost is at least the exact cost, written over the quantities and rates as a real number, and less than six microdollars above it; a cache rate not given is the least integer at or above a tenth, five quarters or twice the input rate |
| UsageCost.CostIsExact | packages/core/src/budget.ts:40-127 | the cost is the sum of six terms over usage and rates, each the least integer at or above quantity times rate per unit; it is refused if and only if an amount or a derived rate is not a non-negative safe integer, or that sum is too large |
| UsageCost.CostMonotone | packages/core/src/budget.ts:60-127 | no quantity going up makes the cost go down, and usage no larger than what can be billed can be billed |
| UsageCost.CostSplits | packages/core/src/budget.ts:60-127 | usage that can be billed at once can be billed in two parts, which never costs less, and at most six microdollars more |
| Budget.ReservationTotal | packages/core/src/budget.ts:258-269 | the loop adds up the reservations of one workflow, or of all |
| Budget.ApplyCommits | packages/core/src/budget.ts:250-331 | one operation raises what is spent and reserved by no more than its overrun, unless the result is within the admission limit; BudgetAdmission.DecidesExactly says when a reservation is admitted |
| Budget.CapsHold | packages/core/src/budget.ts:346-495 | over any run under fixed limits, spent plus reserved, for a workflow and for the day, is at most the admission limit plus the total overrun so far |
| Budget.RunBalances | packages/core/src/budget.ts:166-188 | over any run daily spending is the sum over workflows and equals all consumed amounts plus direct usage; no id is open and settled; the settled list has each settled id once |
| Budget.ExecutesOnce | packages/core/src/budget.ts:346-407 | in any run each reservation id is told to execute at most once |
| BudgetAdmission.DecidesExactly | packages/core/src/budget.ts:278-331 | each decision and each error is given if and only if its own condition holds, in the order of the checks; a request that fits both caps, the places and the admission share is admitted |
| BudgetAdmission.ApplyKeepsPlaces | packages/core/src/budget.ts:199-318 | no operation but marking a workflow active takes the number of workflows that are active or hold a reservation above the larger of what it was and the concurrency limit, and that one takes it up by one |
| BudgetAdmission.DeactivatingFrees | packages/core/src/budget.ts:210-222 | marking a workflow inactive takes away that workflow's activity and changes nothing else |
| BudgetAdmission.PlacesHold | packages/core/src/budget.ts:271-318 | over any run under fixed limits that number is at most the concurrency limit plus the workflows that were marked active without holding a place |
| BudgetAdmission.ReservationLives | packages/core/src/budget.ts:346-495 | a reservation told to execute stays open as requested until a later release or consumption closes it, and is settled as that operation said from then on |
| BudgetAdmission.AnswersExactly | packages/core/src/budget.ts:346-495 | repeating a request admits it again without executing while it is open, and replays its outcome once closed; other details under the id are an error; settling again the same way changes nothing, another way is an error |
| BudgetAdmission.WorkflowBalances | packages/core/src/budget.ts:166-188 | over any run each workflow has spent what its own reservations consumed plus its own direct usage |
| GlobRegex.GlobPatternToRegex | packages/core/src/publication.ts:234-253 | the index loop writes the texts of the pattern's pieces between the anchors |
| GlobRegex.ReadsBack | packages/core/src/publication.ts:234-253 | parsed as a regular expression, the text denotes one term per piece: nothing is quantified or grouped by accident |
| GlobRegex.SameMeaning | packages/core/src/publication.ts:234-253 | the expression of a pattern matches exactly the texts the glob matches |
| GlobRegex.GlobPreserved | packages/core/src/publication.ts:234-253 | for every pattern and every printable ASCII path the compiled source, parsed and matched as a regular expression, agrees with a direct recursive glob matcher |
| CanonicalJson.ParseUndoesWrite | packages/core/src/config.ts:367-373 | a JSON parser undoes the printer on every value, with key order |
| CanonicalJson.CanonicalAgrees | packages/core/src/artifact-capability.ts:95-114 | the hand-written printer and sort-then-stringify print the same text |
| CanonicalJson.SameCanonical | packages/core/src/config.ts:351-365 | canonical forms are equal if and only if the values are equal up to object key order at every depth |
| CanonicalJson.CanonicalIsUnambiguous | packages/core/src/artifact-capability.ts:95-114 | two values print to one text if and only if they are equal up to object key order at every depth, for both printers |
| CanonicalJson.ParseUndoesCanonical | packages/core/src/artifact-capability.ts:95-114 | canonical text parses back to the canonical form of its value |
| CanonicalLength.UnitIsShortest | packages/core/src/config.ts:367-373 | a unit is printed in the shortest way that reads back, with lower-case hexadecimal digits where it is numbered; a lone surrogate is always numbered |
| CanonicalLength.StringIsShortest | packages/core/src/config.ts:367-373 | no text in quotes that reads back as a well-formed string is shorter than the printed one |
| CanonicalLength.EscapedIsPaired | packages/core/src/config.ts:367-373 | what is printed for any string has no lone surrogate |
| TextOrder.LessByUnit | packages/core/src/config.ts:351-353 | keys are ordered by the first code unit in which they differ, and a key that another begins with comes first |
| ConfigDiff.PatchRestores | packages/core/src/config.ts:390-433 | applying every reported change, in order, to the old value gives the new one up to key order |
| ConfigReport.ReportIsTruthful | packages/core/src/config.ts:390-433 | every reported change says what is at its path before and after: added if there was nothing, removed if there is nothing now, changed if both values are given, differ and are not both objects |
| ConfigReport.ReportAscends | packages/core/src/config.ts:390-433 | changes are reported in ascending order of their paths, key by key, so no path is reported twice |
| ConfigDiff.UnchangedMeansSameHash | packages/core/src/config.ts:449-460 | no changes means equal canonical text, so equal hashes |
| ConfigDiff.RawValuesAgreeIffRigid | packages/core/src/config.ts:390-433 | of values that no schema has put in order, a reported change and differing canonical text are one answer for every new value if and only if no array of the old one holds an object with two keys or more |
| ConfigSchema.FixedIsAlone | packages/core/src/config.ts:100-109 | a value of a schema without records can be written in one way only once it is parsed |
| ConfigSchema.ConfigurationsAreFixed | packages/core/src/config.ts:31-226 | in the configuration schema the lists hold scalars or pipeline steps, and the keys of a parsed step come in one order |
| ConfigSchema.ChangedIffHashDiffers | packages/core/src/config.ts:435-460 | for every schema whose lists leave no key order to the user, parsed values have a difference if and only if their canonical texts differ |
| ConfigSchema.PlanAgreesWithHashes | packages/core/src/config.ts:449-460 | a plan between two parsed configurations reports a change if and only if their hashed texts differ |
| ArtifactCapability.ConfigureKeys | packages/core/src/artifact-capability.ts:283-300 | the verifier takes a list of keys if and only if there is one, all are well formed and no id repeats; it then knows exactly those |
| ArtifactCapability.ClaimsReadBack | packages/core/src/artifact-capability.ts:151-281 | every claim survives canonical printing and reading back, the optional prefix included |
| ArtifactCapability.PayloadReadsBack | packages/core/src/artifact-capability.ts:243-281 | an issued payload reads back as the claims and the time it was issued with, unless issued more than five minutes ahead |
| ArtifactToken.TokenParts | packages/core/src/artifact-capability.ts:220-237 | a token splits at its dots into the four parts it was made of if its key id has no dot, and into more otherwise |
| ArtifactToken.TokenIsShort | packages/core/src/artifact-capability.ts:151-237 | no issued token is longer than the verifier takes |
| ArtifactToken.IssuedVerifies | packages/core/src/artifact-capability.ts:283-351 | for every matching request in its window an issued token gives back its claims if and only if its key id has no dot; otherwise it is refused |
| ArtifactToken.DottedKeyIsRefused | packages/core/src/artifact-capability.ts:66-93 | the key id a.b is taken by issuer and verifier, and what is issued with it is refused by every verifier, for every request, at every time |
| ArtifactToken.AcceptedIsSignedAndFresh | packages/core/src/artifact-capability.ts:283-351 | an accepted token is signed by a configured key over all before its signature; now lies in its window, from notBefore to before expiresAt; it was issued less than an hour ago and at most five minutes from now; and purpose, audience, method, project, run, step, prefix and bytes suit the request, each spelled out |
| ArtifactToken.AcceptsExactly | packages/core/src/artifact-capability.ts:220-351 | a token is accepted with its claims if and only if it is of that kind: length, parts, signature, payload, limits on the claims when issued, window and request, all spelled out |
| ArtifactToken.IssuesExactly | packages/core/src/artifact-capability.ts:86-237 | a token is issued if and only if the key id and the claims are within these limits |
| ArtifactKey.ParseUndoesBuild | packages/core/src/artifacts.ts:210-241 | parsing a built key gives back its parts |
| ArtifactKey.BuildUndoesParse | packages/core/src/artifacts.ts:218-241 | a key that parses is the key built from its parts, decimal version included |
| ArtifactKey.KeyIsShort | packages/core/src/artifacts.ts:210-224 | a built key has at most 611 characters, so never reaches the length the parser refuses |
| ArtifactKey.KeyLeadsDown | packages/core/src/artifacts.ts:218-241 | a key that parses has nine parts between slashes, none of them empty, a dot or two dots |
| ArtifactKey.MatchIsPrefix | packages/core/src/artifacts.ts:243-254 | a canonical key matches a scope if and only if it starts with that scope's prefix |
| ArtifactKey.ScopesAreApart | packages/core/src/artifacts.ts:196-199 | no prefix of one scope begins the prefix of another |
| PublicationManifest.IsPaired | packages/core/src/publication.ts:373-387 | the scan accepts a text if and only if every surrogate in it is half of a pair |
| PublicationManifest.SyntaxByPart | packages/core/src/publication.ts:336-363 | a path is well formed if and only if it is printable ASCII without backslash or percent and none of its parts is empty, a dot, two dots, padded with spaces, or ends in a dot |
| PublicationManifest.FoldsAlike | packages/core/src/publication.ts:447-451 | two paths collide if and only if they differ in the case of letters alone, or not at all |
| PublicationManifest.BytesByUnit | packages/core/src/publication.ts:461-469 | the size of well-formed text is the sum over its code units: one, two or three bytes, and four for a pair of surrogates |
| PublicationManifest.ParsePublicationManifest | packages/core/src/publication.ts:419-478 | a change list is accepted if and only if its paths are allowed and distinct when case-folded, no written path is an ancestor directory of another, texts are well formed and not binary, and their UTF-8 sizes fit; otherwise the error names what is wrong with the first change that cannot join the acceptable ones before it |
| PublicationManifest.OrderIsIrrelevant | packages/core/src/publication.ts:443-471 | any permutation of a change list is accepted alike |
| PublicationManifest.CanonicalFormIgnoresOrder | packages/core/src/publication.ts:393-411 | the canonical form of an accepted manifest is that of another if and only if the other has the same changes and the same test evidence, in any order |
| PublicationManifest.ProtectionIsTheRegex | packages/core/src/publication.ts:336-371 | on every path of the right syntax the compiled matchers of protected paths agree with the globs they are written as |
| DependencyCheck.CycleSearch.Visit | packages/core/src/config.ts:307-326 | the recursive search terminates on every graph; when it reports a cycle a path from the step runs into one, and when it does not, everything visited is in topological order and includes the step |
| DependencyCheck.IndexSteps | packages/core/src/config.ts:241-252 | a repeated id stands for the first step that carries it, and is reported at every later one |
| DependencyCheck.CheckDependencies | packages/core/src/config.ts:277-305 | self and unknown dependencies are reported exactly where they occur |
| DependencyCheck.FindCycle | packages/core/src/config.ts:307-337 | a cycle is reported if and only if the graph of known, non-self dependencies has one |
| DependencyCheck.CheckPipeline | packages/core/src/config.ts:240-337 | there are no issues if and only if ids are distinct, dependencies are known and not of the step itself, and there is no cycle; then the visit order is topological |
| DependencyCheck.OrderedIsAcyclic | packages/core/src/config.ts:277-337 | a topological order of every step rules out cycles |
| DependencyCheck.AcceptedRunsInOrder | packages/core/src/config.ts:240-337 | an accepted pipeline can be run in the visit order: each step once, every dependency before it |
| RunScan.Reconciliation.Reconcile | apps/control-plane/src/application/workflow-reconciliation.ts:200-604 | an invocation starts with the runs there are, scans runs and saves the cursor after each, and then clears the cursor, or is killed after exactly the steps it was given, or is out of pages; the history stays one in which a cleared cursor means a complete cycle |
| RunScan.Reconciliation.ScanPage | apps/control-plane/src/application/workflow-reconciliation.ts:234-600 | a page is scanned run by run in its order, each run followed by saving the cursor at it; a kill leaves exactly the actions the budget allowed |
| RunScan.ReconcileRepeatedly | apps/control-plane/src/application/workflow-reconciliation.ts:218-604 | a series of invocations, each killed anywhere, is one such invocation after the other, on the runs there were when each started |
| RunScan.CursorMoves | apps/control-plane/src/application/workflow-reconciliation.ts:218-233 | scanning the next listed run covers everything up to it that the cycle began with, and lies beyond everything saved before |
| RunScan.CycleSinceItBegan | apps/control-plane/src/application/workflow-reconciliation.ts:218-233 | what the current cycle began with is the runs at the last invocation that found no cursor; its scans, saves and kills are those since |
| RunScan.EveryRunIsScanned | apps/control-plane/src/application/workflow-reconciliation.ts:218-604 | between the invocation that finds no cursor and the clearing of the cursor every run that was there at the beginning is scanned and saved cursors only move forward; without a kill in between each such run is scanned exactly once |
| RunScan.UnkilledScansOnce | apps/control-plane/src/application/workflow-reconciliation.ts:218-604 | a complete cycle without a kill scanned each run present at its beginning exactly once |
| ServiceLoops.StepIsSound | apps/control-plane/src/application/control-plane-service.ts:544-564 | every claim and every store keeps each index with one worker, or in its slot with the right result |
| ServiceLoops.EachIndexOnce | apps/control-plane/src/application/control-plane-service.ts:541-564 | under any interleaving indexes are claimed once, in order, and held by one worker, of no more than allowed; once all workers finished, with at least one allowed, every result is there and right |
| ServiceLoops.CheckChainDepth | apps/control-plane/src/application/control-plane-service.ts:2337-2355 | the early-exit walk allows one more run if and only if the chain has a full length and that length plus one fits; a circular chain is refused |

## Left out

- HTTP, sign-in, cookies, the user interface, GitHub and Postgres clients, files and directories: plumbing around libraries.
- Hashes, the MAC, base64url, UTF-8, JSON.parse and ISO-8601 dates: parameters with round-trip and length laws only; nothing is assumed of the MAC but its alphabet and its length.
- Progress of the scheduler under interference: only safety is stated; BacklogPass.OnePass says what a pass does alone. The code can pause or idle without need, and the protocol allows a pass to pause whenever creating a run may be refused.
- BacklogService.Service.AdvanceBacklogs: one backlog per pass. The service loops over a project's backlogs; their items and item runs are disjoint, so each is its own protocol run. Deleting a backlog, titles and descriptions of items are not modelled.
- BacklogService.Service.CreateRun: every refusal of chain resolution beyond a missing, unfinished or unpublished base (depth, another active run, a changed configuration, a store error) is one nondeterministic refusal; the configuration snapshot written after the run is outside these rows, and its failure is one of the failures after the creation; a client that creates a run under a backlog item's own idempotency key is not modelled.
- BacklogService.Service.DispatchBacklogItem: which failure occurs is not modelled; the source names it in the pause reason.
- BacklogProtocol.StepKeepsInv: no operation of the source sets an item to skipped; the model lets an outside edit set a pending or failed item aside, so that the scheduler's handling of such items is covered.
- Resume generations of runs: a run that has not succeeded may change status and output in any way between two steps.
- The rest of the configuration schema: ConfigSchema keeps its keys and their order, not what strings and numbers must satisfy; references between agents, models and environments, and the wording of issues, are not modelled.
- DependencyCheck.CycleSearch.Visit: termination is proved; the call stack of a very long chain is not modelled.
- CanonicalJson.ParseUndoesWrite: numbers are identified with the decimal text ECMAScript gives them, so negative zero, NaN and infinities do not occur; keys that look like array indexes, which JavaScript moves to the front of an object, keep their place here.
- ConfigDiff.PatchRestores: a path is the list of its keys; the dot-joined string of the source loses where a key with a dot ends.
- ArtifactToken.AcceptedIsSignedAndFresh: the payload is read by any JSON reader that reads canonical text back, so white space and other number spellings are covered; claims of the wrong JSON type are refused, where the source would take a nonce that is a number or a one-element list. No issuer writes one.
- GlobRegex.GlobPreserved: stated for printable ASCII paths, the only ones the source lets through to its matchers; case folding is a parameter that keeps the slash apart.
- PublicationManifest.ParsePublicationManifest: the envelope of a manifest (its schema, digests and attached authorization) and Unicode normalization of paths, which changes nothing in printable ASCII, are not modelled.
- Budget.CapsHold: amounts that are not integers, which the source refuses before anything else, and the ledger's day are not modelled; overrun counts direct usage, which is never admitted against a cap.
- RunScan.Reconciliation.Reconcile: what is done for one run is one step, so a kill in the middle of it is a kill before or after it; deliveries and their failures, and a missing cursor store, are not modelled.
- ServiceLoops.EachIndexOnce: a rejected worker is not modelled. All callers ask for eight workers; fewer than one does not occur.
- evaluatePublicationPolicy: it compares a change list with configured limits on number, size, modes and deletions, and with protected globs; the globs are covered by GlobRegex.GlobPreserved, the rest are single comparisons.
- validatePublicationAuthorization: it compares a signed authorization, claim by claim through the canonical printer, with the manifest and the clock; the printer is covered by CanonicalJson.CanonicalIsUnambiguous.
- countTimestampedPages and readAllEvents: they page through a listing to its end and collect what they see; how a listing pages is modelled once, in RunScan.
- Evidence verifiers and failure fingerprints: they run commands and normalize their output.
- The artifact stores' leases and deletions: the manifest implementations they rely on are not part of this model.
