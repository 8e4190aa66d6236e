# Janusly decision logic, verified

This project models the decision logic of Janusly, a workflow-automation server, and proves properties of it in
Dafny. One module stands for one component; each loop of the server is a method proved against a specification, and
the properties are lemmas about that specification, the longer proofs in modules of their own. Specifications are tied
to meanings stated without them: dates, texts, nodes and edges, input candidates, single fields.
`dafny verify dfyconfig.toml` checks everything.

| area | modules |
|---|---|
| Workflow graphs | `WorkflowGraph` (nodes, edges, paths), `CycleCheck`, `ApprovalGuard`, `RecoveryDag` |
| Recovery repairs | `TechnicalRepair`, `ApprovalSplice`, `RepairSafety`, `RepairClasses`, `RecoveryPolicy` |
| Time | `Calendar`, `CronExpression`, `CronSchedule`, `CronHorizon`, `CronWeekdays`, `CronParts`, `WaitingInstant`, `InstantSpellings`, `ApprovalDeadline` |
| Runs | `Downstream` (one scheduling pass), `RunSafety` (order independence, deadlock), `RunLifecycle` (whole runs), `ApprovalRuns` (approvals at run time) |
| Decisions and replay | `StableSorting`, `DecisionEngine`, `DecisionOrder`, `DecisionDominance`, `WeightScaling`, `ExperienceContract`, `ExperienceReplay`, `ReplayTheorems`, `ExperienceOutcomes`, `ReplayOutcomes` |
| Text and budgets | `JsonRepair`, `JsonValidity`, `InputDefaults`, `InputConformance`, `Utf8`, `Guidance`, `CapabilityPrompt`, `Histogram` |
| Healing | `RetryHealing` |
| Shared | `Json`, `Options`, `Sequences`, `Text` |

Conventions. Instants are integers: nanoseconds, with minutes for cron fires, from 1 January of year 1. Floating
point numbers are reals and machine integers are mathematical integers. A source error becomes `None`, a problem, or
the absence of a receipt. The store, the clock, the expression evaluator, the secret detector, the text grammars of
identifiers and the rendered size of a prompt are parameters.

## Where a promise does not hold

Each of these is kept as the code has it: the lemma with a concrete input comes first, the one with the exact
condition second.

* Rescaling all routing weights changes nothing, except when the weights cancel to a total of zero
  (`CancellingWeightsRescale`, `RescalingWeights`); the visible ranking then changes exactly when the factor is not
  one and some visible row has a base score (`RescalingRankingExactly`).
* A replayed decision ranks like the live one, except when rows that tie on cost or latency differ in score
  (`CheapestTieDiffers`, `ReplayAgreesExactly`): the live decision sorts by score first, the replay does not.
* A printed instant reads back, except outside UTC years 0000 to 9999 (`DeadlineBeyondGrammar`, `FormatThenParse`);
  deadline materialisation accepts such instants.
* A declared default is never reported missing, except where a schema requires it behind the items of an array
  (`ArrayItemsAreNotDefaulted`, `DefaultsMissedExactly`).
* An approval-dominated node is guarded, except when an approval-free loop feeds it (`CyclicDominanceRefused`,
  `GuardedExactly`). Workflows are validated as acyclic, so this only concerns unvalidated input.
* A schedule that can fire is accepted, except one confined to 29 February with no leap day ahead inside the
  four-year limit (`LeapDayMissed`, `ReachableExactly`). The limit is strict, so asked from its own fire such a
  schedule with one time of day is refused in every year (`OwnFireRefused`), not only around 2100.
* A node that left pending stays scheduled, except that a run settling as failed gives its queued nodes back
  (`QueuedSiblingDemoted`, `PendingAgainExactly`). Timers, approval deadlines and subworkflows settle a run as failed
  even where an on-error edge exists (`FailureCauses`).
* A started node has its dependencies settled, except towards a failure that its on-error branch waited for and a
  redrive took back (`RedriveReopensDependency`, `DependencyExactly`).
* The node behind an inserted approval starts only once the approval has succeeded, except after the approval was
  skipped, which happens where the original workflow would have skipped the node itself
  (`FalseConditionReleases`, `SkippedApprovalReleases` with `PatchedStartsApproved`): a skipped approval satisfies its
  plain edge.
* The comment on JSON repair says a dangling key is trimmed back to the last complete element; the code completes it
  with `null` (`DanglingKeyGetsNull`, `OnlyClosesExactly`). It also says that closing makes a valid beginning parse,
  which fails for a cut inside a key, between a key and its colon, or inside a number, word or hexadecimal escape
  (`CutWordIsNotJson`, `TruncationIsJsonExactly`).
* The healing proposal always has an acceptable retry block, except when the existing block lists a matcher twice,
  which the retry policy itself refuses (`RepeatedMatcherRefused`, `ProposalIsPolicyExactly`).

## A result with a boundary

Node order does not matter to a pass whose conditions read only predecessors and nodes settled before the pass
(`OrderIrrelevant`). A condition that reads more can see the order, be it an unrelated node
(`UnrelatedReadSeesOrder`) or an ancestor beyond the predecessor (`AncestorReadSeesOrder`).

## Model

| member | source | states |
|---|---|---|
| `CycleCheck.BuildGraph` | internal/domain/validate.go:761-769 | the adjacency lists hold exactly the edges that leave a declared node |
| `CycleCheck.Search` | internal/domain/validate.go:784-805 | one explicit-stack exploration either finds a directed cycle or leaves every explored node finished; it terminates because no visited node is entered again |
| `CycleCheck.HasCycle` | internal/domain/validate.go:760-808 | true if and only if a directed cycle exists among the edges that leave declared nodes |
| `CycleCheck.DeclaredCycles` | internal/domain/validate.go:760-808 | the cycles it looks for are exactly the cycles of edges that pass through declared nodes only |
| `CycleCheck.FinishedIsAcyclic` | internal/domain/validate.go:789-793 | if every node only leads to nodes finished before it, there is no cycle |
| `CycleCheck.StackCycle` | internal/domain/validate.go:796-798 | an edge back to a node that is still being visited closes a cycle along the stack |
| `CycleCheck.DeclaredArcsAreAll` | internal/domain/validate.go:765-769 | when edges join declared nodes, the search sees every edge |
| `ApprovalGuard.ApprovalCache.HasApprovalAncestor` | internal/domain/readiness.go:278-324 | on every graph the answer is exactly "not exposed", and every entry of the shared cache equals the fresh answer before and after |
| `ApprovalGuard.ApprovalCache.Guarded` | internal/domain/readiness.go:293-323 | the memoised recursion with its visiting set terminates and answers exactly, whatever was cached before |
| `ApprovalGuard.RevisitExposed` | internal/domain/readiness.go:299-302 | meeting a node that is still being visited proves an unapproved loop, so the refusal is right |
| `ApprovalGuard.GuardedExactly` | internal/domain/readiness.go:288-292 | on any graph a node is guarded if and only if approvals dominate it from every root and no approval-free loop feeds it |
| `ApprovalGuard.GuardedIffDominated` | internal/domain/readiness.go:288-292 | on an acyclic graph guarded is exactly "every path from a root passes an approval strictly before the node" |
| `ApprovalGuard.CyclicDominanceRefused` | internal/domain/readiness.go:291-292 | on cyclic input a declared, dominated node can be refused (a self-feeding node no root reaches) |
| `ApprovalGuard.UnguardedSensitiveNodes` | internal/domain/readiness.go:65-72 | one cache over all write-side nodes flags exactly the exposed ones, in declaration order |
| `RecoveryDag.ReachableNodesWithout` | internal/domain/recoverydag.go:199-228 | the visited set is exactly the nodes some declared original root reaches while avoiding the excluded node |
| `RecoveryDag.DetectorGuardsEffect` | internal/domain/recoverydag.go:112-125 | an effect is outside that set if and only if the detector is on every root path strictly before it |
| `RecoveryDag.UnguardedEffects` | internal/domain/recoverydag.go:118-125 | the save gate reports exactly the effects the detector is or does not run before |
| `RecoveryDag.GuardedNotBypassed` | internal/domain/recoverydag.go:195-198 | if one approval is the only one, a guarded node is cut off by its removal, on any graph |
| `RecoveryDag.GuardedIffNotBypassed` | internal/domain/recoverydag.go:195-228 | backward and forward dominance agree on an acyclic graph with a single approval |
| `TechnicalRepair.EqualEdgeSets` | internal/domain/technicalautonomy.go:378-401 | the counting comparison is multiset equality of edges |
| `TechnicalRepair.ConfigComparison` | internal/domain/technicalautonomy.go:330-352 | the size-and-lookup comparison is equality of the two configurations without the retry key |
| `TechnicalRepair.ExactApprovalInsertion` | internal/domain/technicalautonomy.go:354-376 | recognises exactly the insertion of one bare approval spliced in front of the failing node |
| `TechnicalRepair.ClassifyRepair` | internal/domain/technicalautonomy.go:273-300 | computes the class defined over node maps by id and edge multisets, unclassified when either side is missing |
| `ApprovalSplice.SpliceKeepsReachability` | internal/domain/technicalautonomy.go:367-375 | splicing a fresh node in front of another changes no reachability between old nodes |
| `ApprovalSplice.SpliceKeepsAcyclicity` | internal/domain/technicalautonomy.go:367-375 | the spliced graph is cyclic if and only if the original is |
| `RepairSafety.InsertionSplices` | internal/domain/technicalautonomy.go:354-376 | a recognised insertion is a splice of a fresh approval, and no other node's type changes |
| `RepairSafety.StructuralPatchKeepsShape` | internal/domain/technicalautonomy.go:282-287 | a structural patch keeps cyclicity and the reachability between all original nodes |
| `RepairSafety.StructuralPatchGuards` | internal/domain/technicalautonomy.go:354-376 | after a structural patch the failing node has the approval ancestor the readiness check looks for |
| `RepairSafety.StructuralPatchKeepsGuards` | internal/domain/technicalautonomy.go:354-376 | no node that was guarded before the patch loses its guard |
| `RepairSafety.InPlaceRepairKeepsGraph` | internal/domain/technicalautonomy.go:288-299 | retry and config patches keep edges, node ids and node types |
| `RepairSafety.ClassIgnoresOrder` | internal/domain/technicalautonomy.go:273-300 | permuting nodes or edges on either side never changes the class |
| `RepairClasses.InPlaceClassesExactly` | internal/domain/technicalautonomy.go:288-299 | on distinct ids, a retry (or config patch) is recognised if and only if nothing changed but one configuration of the failing node, its retry key alone (or some other key) |
| `RepairClasses.StructuralClassExactly` | internal/domain/technicalautonomy.go:354-376 | on distinct ids, a structural patch is recognised if and only if one approval carrying only a visible message was added, every edge into the failing node now enters it, each with its condition and kind, and one plain edge leads on |
| `Calendar.DateOfDayNumber` | internal/domain/approvalwaiting.go:290-291 | a valid date is the only date with its day number, so date arithmetic cannot confuse two dates |
| `Calendar.MonthLengths` | internal/domain/approvalwaiting.go:340-353 | months alternate from 31 days in January and again in August, February apart |
| `Calendar.DayNumberMonotone` | internal/domain/approvalwaiting.go:340-353 | with these month lengths day numbers order dates as the calendar does |
| `Calendar.SameMonth` | internal/cron/cron.go:123-126 | every day before the first of the next month lies in the same month |
| `CronSchedule.MonthSkip` | internal/cron/cron.go:123-126 | no minute jumped over by the month skip matches |
| `CronSchedule.DaySkip` | internal/cron/cron.go:127-130 | no minute jumped over by the day skip matches |
| `CronSchedule.HourSkip` | internal/cron/cron.go:131-134 | no minute jumped over by the hour skip matches |
| `CronSchedule.Next` | internal/cron/cron.go:119-142 | the least matching whole minute strictly after the instant and before the four-year limit; none exactly when the window holds no match |
| `CronSchedule.NextFires` | internal/cron/heatmap.go:78-97 | each fire is the least match after the previous one; the list is full or the next window is empty; odd counts fall back to five |
| `CronSchedule.FireCounts` | internal/cron/heatmap.go:78-87 | one to twenty fires are listed as asked for, five on any other request |
| `CronSchedule.NoFireSkipped` | internal/cron/heatmap.go:88-95 | up to the last listed fire, a minute matches if and only if it is listed |
| `CronExpression.ParsePart` | internal/cron/cron.go:60-95 | an accepted part is in range, not reversed, with a positive step |
| `CronExpression.PartValues` | internal/cron/cron.go:96-98 | the value loop yields exactly the arithmetic progression from low to high |
| `CronExpression.ParseField` | internal/cron/cron.go:56-104 | accepts exactly the well-formed fields, yields exactly the named values, and reports a wildcard exactly when every part is an unstepped star |
| `CronExpression.WildcardIsFull` | internal/cron/cron.go:71-92 | a field reported as a wildcard names the whole range |
| `CronExpression.FieldRange` | internal/cron/cron.go:93-102 | an accepted field names at least one value and only values in range |
| `CronExpression.Parse` | internal/cron/cron.go:34-54 | accepts exactly five well-formed fields and compiles their meaning in order |
| `CronExpression.ClassicDayRule` | internal/cron/cron.go:106-114 | on every compiled schedule the day test is the crontab rule: either restricted field, else the restricted one, else every day |
| `CronExpression.PreviewFires` | internal/cron/heatmap.go:78-97 | a rejected expression previews nothing, an accepted one its consecutive fires |
| `CronParts.PartExactly` | internal/cron/cron.go:60-95 | a part of a field is read as a range and step if and only if it spells them: a star, a numeral or two numerals in order joined by a hyphen, alone or with a slash and a positive numeral |
| `CronParts.FieldExactly` | internal/cron/cron.go:56-60 | a field is accepted, and names its values, part by part between commas |
| `CronParts.ExpressionFields` | internal/cron/cron.go:34-38 | an expression is read word by word, whatever blanks stand between and around the words |
| `CronParts.WeeklyText` | internal/cron/cron.go:34-114 | a text with a minute, an hour and a weekday and stars elsewhere fires exactly at that time on the days whole weeks away from the known date of that weekday |
| `CronWeekdays.KnownWeekday` | internal/cron/cron.go:106-114 | 1 January 2000 is a Saturday |
| `CronWeekdays.WeekdaySteps` | internal/cron/cron.go:106-114 | each day the weekday goes up by one, from Saturday back to Sunday |
| `CronWeekdays.WeekdayByDistance` | internal/cron/cron.go:106-114 | a day has a weekday, Sunday being 0, if and only if it lies whole weeks from a known date of it (2 January 2000 was a Sunday) |
| `CronWeekdays.WeekdayFiresExactly` | internal/cron/cron.go:106-114 | a schedule restricted to one weekday alone matches exactly its times, in its months, on days whole weeks from the known date of that weekday |
| `CronWeekdays.MondayExample` | internal/cron/cron.go:119-142 | asked on Thursday 1 January 2026, a schedule for Mondays at nine first fires on 5 January |
| `CronHorizon.CompiledIsWellFormed` | internal/cron/cron.go:34-54 | every compiled schedule has non-empty sets in range, and an unrestricted day field is full |
| `CronHorizon.FiresEver` | internal/cron/cron.go:106-114 | a compiled schedule fires at some time, ever, if and only if it restricts the weekday or names an existing date |
| `CronHorizon.OrdinaryReachable` | internal/cron/cron.go:116-142 | a schedule that names an existing date other than 29 February, or restricts the weekday, has a fire inside the window from every instant |
| `CronHorizon.ReachableExactly` | internal/cron/cron.go:116-142 | for every compiled schedule and instant, the window holds a fire if and only if an existing date is named and, when 29 February is the only one, a leap day with a named time lies ahead (by year, day and time of the instant) |
| `CronHorizon.Validate` | internal/cron/cron.go:144-152 | an expression is accepted if and only if it parses and its schedule satisfies that condition at the current instant |
| `CronHorizon.OwnFireRefused` | internal/cron/cron.go:119-142 | asked from one of its own fires, a leap-day schedule with one time of day is always refused |
| `CronHorizon.PreviewOfLeapDay` | internal/cron/heatmap.go:88-95 | so its preview never lists more than one fire |
| `CronHorizon.LeapDayMissed` | internal/cron/cron.go:119-142 | the input: midnight on 29 February 2028 is a fire and is not found from midnight on 29 February 2024 |
| `WaitingInstant.ParseRendered` | internal/domain/approvalwaiting.go:254-293 | fields in range of a four-digit year, at any offset, read back as the instant they denote |
| `WaitingInstant.FormatThenParse` | internal/domain/approvalwaiting.go:254-299 | parsing a printed instant gives it truncated to the millisecond exactly for UTC years 0-9999, otherwise it is refused |
| `WaitingInstant.UnsupportedYearRejected` | internal/domain/approvalwaiting.go:295-299 | a year outside 0000-9999 does not print in the accepted grammar |
| `WaitingInstant.AcceptedKeepsFields` | internal/domain/approvalwaiting.go:251-276 | an accepted text is never normalised: at its own offset the clock shows exactly the spelled fields |
| `WaitingInstant.FieldsUnique` | internal/domain/approvalwaiting.go:290-292 | in-range fields are the wall clock of the instant they denote |
| `WaitingInstant.ParseThenFormat` | internal/domain/approvalwaiting.go:254-299 | reprinting an accepted text reads back as the same instant exactly when the UTC year has four digits |
| `WaitingInstant.OffsetSpellingsAgree` | internal/domain/approvalwaiting.go:283-299 | the canonical spelling of an instant at any offset parses to it and prints as the same UTC text |
| `WaitingInstant.SpellingsExactly` | internal/domain/approvalwaiting.go:254-293 | any text of the grammar, whatever its seconds, fraction and zone spelling, parses to an instant's millisecond if and only if it spells that instant's wall clock at its own offset |
| `WaitingInstant.SpellingsPrintAlike` | internal/domain/approvalwaiting.go:295-299 | any two accepted spellings of one millisecond print as the same UTC text |
| `WaitingInstant.FormatInstant` | internal/domain/approvalwaiting.go:295-299 | computes the UTC text with millisecond precision |
| `InstantSpellings.SpelledMatches` | internal/domain/approvalwaiting.go:254-258 | a text built from date, optional seconds, optional fraction and zone is taken apart into exactly those parts |
| `InstantSpellings.MatchedIsSpelled` | internal/domain/approvalwaiting.go:254-258 | every text of the grammar is built that way |
| `InstantSpellings.HeadExactly` | internal/domain/approvalwaiting.go:21-23 | a head is exactly four-digit year, month and day between hyphens, a T, and hour and minute around a colon |
| `InstantSpellings.ZoneExactly` | internal/domain/approvalwaiting.go:21-23 | a zone is exactly a Z, or a sign with two-digit hours and minutes around a colon |
| `InstantSpellings.PaddedFraction` | internal/domain/approvalwaiting.go:277-281 | a zero appended to a fraction of one or two digits changes nothing |
| `InstantSpellings.OmittedFraction` | internal/domain/approvalwaiting.go:277-281 | leaving out a fraction of zeros changes nothing |
| `InstantSpellings.OmittedSeconds` | internal/domain/approvalwaiting.go:264-267 | leaving out zero seconds changes nothing |
| `InstantSpellings.ZoneShifts` | internal/domain/approvalwaiting.go:282-291 | the same clock reading ahead of UTC is earlier by hours and minutes, behind UTC later by them; more than 23 hours or 59 minutes are refused |
| `ApprovalDeadline.MaterializeApprovalWaitingMetadata` | internal/domain/approvalwaiting.go:226-249 | other entries stay; a deadline is gained exactly by an approval record without one whose usable timeout stays in range; the recorded delay is the requested timeout, and the recorded text reads back as checkpoint plus delay exactly for four-digit years |
| `ApprovalDeadline.StartsExactly` | internal/domain/approvalwaiting.go:226-245 | a deadline is started if and only if the record is an approval without one whose timeout is a whole number from 1 to 9007199254740991 that stays in range |
| `ApprovalDeadline.DeadlineIsFixed` | internal/domain/approvalwaiting.go:235-237 | once set the deadline never moves, and no other entry changes |
| `ApprovalDeadline.DeadlineReadsBack` | internal/domain/approvalwaiting.go:242-246 | the due instant is the checkpoint, in milliseconds, plus the timeout, and reads back exactly for four-digit years |
| `ApprovalDeadline.DeadlineBeyondGrammar` | internal/domain/approvalwaiting.go:243-246 | a timeout from the start of 2024 to the year 10000 is in range, and its printed deadline cannot be read back |
| `ApprovalDeadline.DeadlineRange` | internal/domain/approvalwaiting.go:242-245 | a deadline is in range if and only if it lies from 20 April -271821 to 13 September 275760, a hundred million days either side of 1 January 1970 |
| `Downstream.Pass` | internal/engine/downstream.go:82-130 | one pass makes only legal moves; it either leaves fewer pending nodes, or is idle: it skips none and every queue claim it tries is refused |
| `Downstream.ScheduleReady` | internal/engine/downstream.go:79-131 | the loop terminates whatever the store answers; legal moves lead to the final state, exactly as many nodes are queued as claims were granted, and the last pass is idle |
| `Downstream.Visit` | internal/engine/downstream.go:82-130 | in edges and statuses: a pending node is queued if and only if all its sources ended its way and some edge into it is unconditional or true, or there is none; skipped if and only if a source ended the wrong way or all did end its way and every edge is false |
| `Downstream.Tally` | internal/engine/downstream.go:140-156 | the counters and flags are exact for the final statuses, and without an unhandled failure every failure counts as handled |
| `Downstream.Settle` | internal/engine/downstream.go:133-182 | wakes exactly when something was queued; fails exactly when some failed node has no outgoing on-error edge; succeeds exactly when nodes exist, none is open and no failure is unhandled |
| `RunSafety.TraceEffect` | internal/engine/downstream.go:83-129 | the loop touches only pending nodes and moves them only to skipped or queued |
| `RunSafety.MovesOnce` | internal/engine/downstream.go:83-129 | each node moves at most once |
| `RunSafety.EdgeStable` | internal/engine/readiness.go:19-56 | an edge satisfied or doomed before a pass stays so through it |
| `RunSafety.QueuedIsReady` | internal/engine/downstream.go:86-98 | what a pass queues has all dependencies settled; without conditions what it skips sits behind a dead edge |
| `RunSafety.NotBothVerdicts` | internal/engine/readiness.go:19-56 | no node is satisfied and doomed at once |
| `RunSafety.StillPendingIsBlocked` | internal/engine/downstream.go:79-131 | on exit a pending node is not doomed, and if it is satisfied the store refused its own queue claim in the last pass |
| `RunSafety.OrderIrrelevant` | internal/engine/downstream.go:79-131 | when each condition reads only predecessors of its target and nodes that were not pending, two complete traces over any node and edge orders end in the same statuses |
| `RunSafety.FinalStatusesAgree` | internal/engine/downstream.go:79-131 | so do two runs of the loop on reordered workflows, with every claim granted |
| `RunSafety.UnconditionalIsLocal` | internal/engine/downstream.go:200-218 | a workflow without conditions reads nothing else |
| `RunSafety.UnrelatedReadSeesOrder` | internal/engine/downstream.go:107-116 | the input: a condition that reads an unrelated node skipped in the same pass gives two orders two outcomes |
| `RunSafety.AncestorReadSeesOrder` | internal/engine/downstream.go:107-116 | the input: so does a condition that reads an ancestor beyond its predecessor, when one failure settles both in the same pass |
| `RunSafety.NoDeadlock` | internal/engine/downstream.go:165-182 | on an acyclic workflow, a complete pass leaves an open node only while some node is queued, running or waiting |
| `RunLifecycle.PendingAgainExactly` | internal/store/queries/dispatch.sql:13-19 | over every update of a run, a node returns to pending if and only if the update settles the run as failed while the node is queued |
| `RunLifecycle.FailureCauses` | internal/engine/terminalfailure.go:154-195 | an active run settles as failed exactly by an unhandled node failure, by a pass that finds one, or by the failure of a waiting node |
| `RunLifecycle.RunStatusExactly` | internal/engine/downstream.go:133-182 | success and cancellation of a run are final, and a failed run becomes active again exactly by a redrive |
| `RunLifecycle.SuccessIsFinal` | internal/engine/downstream.go:133-182 | until a redrive, every node of a succeeded run is done, every failure has an on-error edge, and nothing else can happen in it |
| `RunLifecycle.ReturnsByDemotion` | internal/engine/downstream.go:224-241 | over whole runs, between leaving pending and being pending again lies a failed settlement that found the node queued |
| `RunLifecycle.ScheduledOnce` | internal/engine/downstream.go:83-85 | as long as the run does not settle as failed, a node that left pending never returns |
| `RunLifecycle.QueuedSiblingDemoted` | internal/engine/terminalfailure.go:179-195 | the input: of two queued roots, the first can fail with no on-error edge while the second is queued, and the second is pending again |
| `RunLifecycle.FailedRunStartsNothing` | internal/engine/downstream.go:41-46 | in a failed run nothing pending starts before a redrive |
| `RunLifecycle.RunsRespectDependencies` | internal/engine/readiness.go:14-56 | in every state of every run, through retries, failures, cancellation and redrives, each dependency of a started node is settled its way, or it is an on-error edge whose source was redriven and has not failed again; without conditions a skipped node sits behind a dead edge, a redriven ordinary one, or a router choice |
| `RunLifecycle.EdgeReopensExactly` | internal/store/queries/runs.sql:390-397 | a decided edge is reopened if and only if its source is redriven, so a satisfied ordinary edge and a dead on-error edge never are |
| `RunLifecycle.DependencyExactly` | internal/engine/readiness.go:14-56 | in every run, a dependency of a started node is settled if and only if it is not an on-error edge whose source was redriven and has not failed again |
| `RunLifecycle.RedriveReopensDependency` | internal/engine/redrive.go:248-284 | the input: a handled failure whose error branch is already running can be redriven |
| `ApprovalRuns.MoveFollowsSettled` | internal/engine/downstream.go:82-130 | whatever starts or skips a node that is not a root has seen one of its predecessors settled |
| `ApprovalRuns.GuardedMovesAfterApproval` | internal/domain/readiness.go:288-292 | in every run of every workflow, a node the readiness check calls guarded starts or is skipped only after an approval from which it is reached was settled |
| `ApprovalRuns.SkippedApprovalReleases` | internal/domain/technicalautonomy.go:367-375 | in every state with both pending, an inserted approval gets the verdict the failing node had in the original; where that is a skip, the same pass goes on to queue the failing node |
| `ApprovalRuns.FalseConditionReleases` | internal/domain/technicalautonomy.go:367-375 | the input: one conditional edge into the failing node whose condition is false |
| `ApprovalRuns.PatchedStartsAfterApproval` | internal/domain/technicalautonomy.go:367-375 | in every run of a patched workflow the failing node starts only behind its approval, succeeded or skipped |
| `ApprovalRuns.SkippedApprovalExplained` | internal/domain/technicalautonomy.go:367-375 | an approval stands skipped only because a router chose otherwise or a pass met a state where the original would have skipped the failing node |
| `ApprovalRuns.PatchedStartsApproved` | internal/domain/technicalautonomy.go:367-375 | in a run without such an event the failing node starts only once its approval has succeeded |
| `StableSorting.SortIsLexicographic` | internal/domain/causal.go:254-265 | a stable sort refines any order the input already had |
| `StableSorting.OrderedListUnique` | internal/domain/causal.go:254-265 | an asymmetric order arranges a collection in only one way |
| `DecisionEngine.Decide` | internal/domain/causal.go:223-297 | returns the specified ranking with its head as the choice, nothing chosen exactly without candidates; certainty is one minus the score, kept between a half and one |
| `DecisionEngine.ReplayDecision` | internal/domain/causal.go:353-401 | returns the replay ranking, its best row, the first row of the recorded node or else the best, and for every other node, in ranking order, what added to the chosen row gives its row |
| `DecisionOrder.FullRankingIsLexicographic` | internal/domain/causal.go:241-265 | the ranking is the scored pool ordered by strategy key, then adjusted score, then input position |
| `DecisionOrder.FullRankingIsUnique` | internal/domain/causal.go:241-265 | no other arrangement of the scored pool has that order |
| `DecisionOrder.BudgetKeepsOrder` | internal/domain/causal.go:267-277 | the budget keeps the order and exactly the affordable rows, and is ignored when it would leave none |
| `DecisionDominance.PoolMeans` | internal/domain/causal.go:224-243 | candidates are ranked if and only if they meet the thresholds, a success rate above one being a percentage, or none does |
| `DecisionDominance.DominatingStandsBefore` | internal/domain/causal.go:132-145 | under the default strategies, with fair weights and no reward on either, a candidate at least as cheap, fast and reliable as a ranked one, and better where it weighs, stands before it, through constraints and budget |
| `DecisionDominance.ChosenIsUndominated` | internal/domain/causal.go:223-297 | so a dominated candidate is never chosen |
| `DecisionDominance.RewardNeverHurts` | internal/domain/causal.go:245-252 | under any strategy, a reward that is not negative, from three or more pulls, keeps a node before every node it stood before |
| `DecisionDominance.DefaultWeights` | internal/domain/causal.go:112-130 | without preferences cost and latency carry two fifths each, quality one fifth |
| `DecisionOrder.ReplayAgreesExactly` | internal/domain/causal.go:353-365 | without constraints, stats and budget, decision and replay show the same rows in the same order if and only if no tie on the strategy key runs against the score |
| `DecisionOrder.CheapestTieDiffers` | internal/domain/causal.go:254-265 | the input: two candidates of equal cost, the first listed the slower, are ranked differently by decision and replay |
| `DecisionOrder.DefaultStrategyReplays` | internal/domain/causal.go:362-365 | under the default strategies replay always reproduces the ranking |
| `DecisionOrder.RescalingWeights` | internal/domain/causal.go:112-130 | positive rescaling leaves the normalised weights alone if and only if they do not cancel, all vanish, or the factor is one |
| `DecisionOrder.RescalingKeepsRanking` | internal/domain/causal.go:112-145 | with a non-zero total, rescaling all weights changes no ranking |
| `DecisionOrder.CancellingWeightsRescale` | internal/domain/causal.go:125-128 | with weights that cancel, doubling them doubles a score |
| `WeightScaling.VanishingScoresKeepRanking` | internal/domain/causal.go:241-277 | rows without a base score are ranked as before, whatever happens to rows the budget hides |
| `WeightScaling.RescalingRankingExactly` | internal/domain/causal.go:112-145 | positive rescaling leaves the visible ranking alone if and only if the weights do not cancel, the factor is one, or no visible row has a base score |
| `JsonRepair.ScanText` | internal/ai/freejson.go:87-117 | the string- and escape-aware loop computes the scan, refusing a mismatched closer |
| `JsonRepair.Ending` | internal/ai/freejson.go:121-134 | computes the exact kept prefix (one trailing comma or one dangling backslash gone) and its ending |
| `JsonRepair.RepairTruncated` | internal/ai/freejson.go:82-143 | succeeds exactly on bracketed text left open without a mismatch; the output is the exact kept prefix, its ending and the closers, rescans to nothing open, and a second repair refuses it |
| `JsonRepair.KeptScans` | internal/ai/freejson.go:121-134 | the kept prefix is a prefix cut only at white space, one comma or one backslash, and leaves open exactly what the text leaves open |
| `JsonRepair.OnlyClosesExactly` | internal/ai/freejson.go:128-134 | the repair only cuts and closes if and only if the text, without white space and one comma, does not end in a colon outside a string; there it adds a null |
| `JsonRepair.DanglingKeyGetsNull` | internal/ai/freejson.go:128-134 | the input: an object cut after its first key and colon is completed with a null |
| `JsonValidity.RunAgrees` | internal/ai/freejson.go:87-117 | wherever the JSON grammar accepts a beginning, the bracket scan accepts it with the same open brackets and string state |
| `JsonValidity.RepairIsJsonExactly` | internal/ai/freejson.go:82-143 | the repaired text is valid JSON if and only if the kept prefix follows the grammar to a value, an opener, a colon, or inside a string value |
| `JsonValidity.TruncationIsJsonExactly` | internal/ai/freejson.go:78-81 | a valid beginning is repaired to valid JSON if and only if it is not cut inside a key, between a key and its colon, or inside an unfinished number, a word or a hexadecimal escape |
| `JsonValidity.CutWordIsNotJson` | internal/ai/freejson.go:78-81 | the input: an array cut inside a word |
| `InputDefaults.ApplyDefaults` | internal/domain/defaults.go:19-63 | visiting the properties in any order computes the order-free resolution |
| `InputDefaults.DefaultsIdempotent` | internal/domain/defaults.go:14-17 | applying the defaults twice is applying them once |
| `InputDefaults.DefaultsOnlyAdd` | internal/domain/defaults.go:19-63 | no supplied leaf or undeclared key is dropped or altered at any depth |
| `InputDefaults.DefaultedPropertyPresent` | internal/domain/defaults.go:19-63 | a property with a declared default is present in every present object |
| `InputDefaults.DefaultFilledIn` | internal/domain/defaults.go:19-63 | in a supplied object at any depth, an absent property holds its declared default and a supplied one its own value |
| `InputDefaults.AbsentLikeDefault` | internal/domain/defaults.go:19-63 | an absent value resolves like its declared default, and without one like an empty object if some property default fills that |
| `InputDefaults.ValidateInputValue` | internal/domain/inputs.go:153-201 | the walk collects exactly the violations, each at its path |
| `InputConformance.AcceptedExactly` | internal/domain/inputs.go:153-220 | nothing is reported if and only if the value has the declared type and choice, every required property, and conforming properties and items |
| `InputDefaults.NoDefaultedPropertyMissing` | internal/domain/inputs.go:153-201 | validation of a defaulted value never reports a defaulted property missing, along any path of properties |
| `InputDefaults.DefaultsMissedExactly` | internal/domain/defaults.go:19-63 | some value is still reported to miss a defaulted property if and only if the schema requires a defaulted property somewhere behind the items of an array |
| `InputDefaults.ArrayItemsAreNotDefaulted` | internal/domain/defaults.go:19-63 | the input: an array of one empty object whose item schema requires a defaulted property |
| `Utf8.TruncateUtf8` | internal/aiguidance/aiguidance.go:120-129 | returns a prefix that backs up over continuation bytes only |
| `Utf8.TruncationIsLongestFit` | internal/aiguidance/aiguidance.go:119-129 | on valid UTF-8 the result is the longest prefix of whole characters that fits, at most three bytes short |
| `Utf8.EncodeInjective` | internal/aiguidance/aiguidance.go:119-129 | different texts have different encodings, since each character is read back from its bytes |
| `Guidance.ShareBudget` | internal/aiguidance/aiguidance.go:95-106 | the two budgets sum to what is available, each section gets its length or its half, and neither is cut when both fit |
| `Guidance.KeepSection` | internal/aiguidance/aiguidance.go:107-114 | a section is kept as its longest fitting prefix without trailing blanks |
| `Guidance.BlankCharacters` | internal/aiguidance/aiguidance.go:107-114 | the trailing characters dropped are exactly spaces, tabs and line feeds |
| `Guidance.ComposeBlock` | internal/aiguidance/aiguidance.go:83-117 | for framing texts that leave room for a separator, the block is never longer than 12 KiB, is empty exactly without guidance, and otherwise frames the shared body |
| `Histogram.LatencyHistogram.Record` | cmd/loadgen/main.go:148-167 | adds the clamped sample and error, and keeps every bucket equal to its number of samples |
| `Histogram.LatencyHistogram.BucketsAddUp` | cmd/loadgen/main.go:148-167 | after any records the buckets sum to the count |
| `Histogram.BucketRoundsUp` | cmd/loadgen/main.go:148-167 | the bucket is the least whole millisecond not below the latency, up to ninety seconds, and one bucket holds the rest |
| `Histogram.LatencyHistogram.BucketOfRank` | cmd/loadgen/main.go:177-185 | accumulating buckets finds the bucket of the rank-th smallest sample |
| `Histogram.LatencyHistogram.Percentile` | cmd/loadgen/main.go:169-186 | the answer is the capped, rounded-up millisecond value of the rank-th sample of any sorted listing, or the overflow bucket when there is no such sample; in [0, 1] there always is one, beyond 1 never |
| `Histogram.RankOfSorted` | cmd/loadgen/main.go:177-185 | the bucket where the running count reaches the rank is that of the rank-th sorted sample |
| `ExperienceContract.ValidateRequest` | internal/authoring/experience_contract.go:314-332 | accepts exactly the requests with a valid frame, valid candidates and distinct ids |
| `ExperienceContract.FindMatch` | internal/authoring/experience_contract.go:286-297 | the selection loop finds the single match or reports ambiguity exactly when there are several |
| `ExperienceContract.DecideRequired` | internal/authoring/experience_contract.go:270-305 | computes the one decision the policy allows |
| `ExperienceContract.ReuseExactly` | internal/authoring/experience_contract.go:270-312 | reuse or adaptation is required if and only if every gate is open and exactly one candidate matches; adaptation exactly with edits |
| `ExperienceOutcomes.OutcomesExactly` | internal/authoring/experience_contract.go:270-312 | a decision is the required one if and only if its mode, reason and candidate fit the first closed gate or, behind open gates, the number of candidates of the tenant, policy and brief that are readable, compatible, not deleted, begun and not ended at the instant |
| `ExperienceContract.ValidateDecision` | internal/authoring/experience_contract.go:242-268 | on a valid request a proposal gets a receipt if and only if it is the rules provider's and both fit their size limits; the receipt repeats the proposal and names the candidate of the request it refers to |
| `ExperienceContract.RulesProposalWellShaped` | internal/authoring/experience_rules.go:14-32 | the rules provider's proposal for a valid request always has a valid shape |
| `ExperienceReplay.ScanConsent` | internal/authoring/experience_replay.go:48-64 | validates the consent log and finds the latest relevant verdict of the tenant |
| `ExperienceReplay.ScanHistory` | internal/authoring/experience_replay.go:65-83 | validates the history and collects the eligible matching candidates as of the instant |
| `ExperienceReplay.ProjectExperienceReplay` | internal/authoring/experience_replay.go:33-99 | succeeds exactly on projectable input and returns the projected request |
| `ReplayTheorems.ReplayDecidesExactly` | internal/authoring/experience_replay.go:33-99 | after projection, reuse or adaptation is decided if and only if the intent is complete and not canonical, edits supported, latest consent enabled, and exactly one entry qualifies |
| `ReplayTheorems.ReplayIgnoresOrder` | internal/authoring/experience_replay.go:47-98 | permuting history and consent changes neither acceptance nor the projected request |
| `ReplayOutcomes.ReplayReason` | internal/authoring/experience_replay.go:33-99 | the reason after projection in terms of the evidence: the gates in order, then none, one, two to five or more than five entries usable and not deleted at the instant |
| `ReplayOutcomes.ReplaySelects` | internal/authoring/experience_replay.go:65-99 | what is selected is the only such entry, as it was before any later deletion |
| `ReplayOutcomes.ConsentByLatest` | internal/authoring/experience_replay.go:48-64 | one more consent event decides if and only if it is the tenant's, not after the instant, and later than all such events before it; without events there is no consent |
| `ReplayOutcomes.NewestKept` | internal/authoring/experience_replay.go:84-92 | no entry left out is registered later than one kept |
| `ReplayOutcomes.ProjectableExactly` | internal/authoring/experience_replay.go:33-99 | projection succeeds if and only if the request is valid and bare, the evidence is sound, and the result fits: validating the result again never fails otherwise |
| `ReplayOutcomes.CandidateFields` | internal/authoring/experience_contract.go:314-332 | each field of a valid candidate can change within its own bound and only within it |
| `ReplayOutcomes.RequestFields` | internal/authoring/experience_contract.go:314-332 | so can each field of a valid request, up to five distinct valid candidates and one edit |
| `CapabilityPrompt.Project` | internal/authoring/prompt.go:78-110 | every category is cut to its limit, truncation markers are dropped, and kept plus omitted is the total |
| `CapabilityPrompt.CallableExactly` | internal/authoring/prompt.go:78-90 | callable tools are exactly those that are no truncation marker, one by one and in order |
| `CapabilityPrompt.InitialLimits` | internal/authoring/prompt.go:91-104 | untrimmed, the prompt offers the first 60 callable tools and the first 80 credentials and subworkflows |
| `CapabilityPrompt.TrimStep` | internal/authoring/prompt.go:127-146 | a step keeps the account, shortens a longest category, gives up field detail first, and lowers the measure |
| `CapabilityPrompt.CapabilityPromptBlock` | internal/authoring/prompt.go:122-152 | terminates whatever the rendered sizes are, and returns the first projection in trimming order that fits, fairly trimmed, or the notice when even the last does not fit |
| `CapabilityPrompt.NothingLeftToTrim` | internal/authoring/prompt.go:143-146 | trimming gives up exactly when no tenant entry and no field detail is left |
| `RetryHealing.ProjectHealingPatch` | internal/engine/autohealing.go:435-529 | returns a patch of the closed grammar unchanged and refuses every other |
| `RetryHealing.DeterministicHealingPatch` | internal/engine/autohealing.go:534-588 | proposes exactly for eligible nodes whose proposal does not look secret; an acceptable block with three attempts, a delay and a backoff comes back as it is, a block with one control missing or unsound has only that control replaced by its default or dropped, no block gives the defaults, and an HTTP timeout is doubled |
| `RetryHealing.ControlsHealApart` | internal/engine/autohealing.go:545-576 | each proposed control depends on the existing control of its own name alone, the maximum delay on the delay too |
| `RetryHealing.ProposalInGrammar` | internal/engine/autohealing.go:408-588 | for every node, the proposal is a fixed point of the projection if and only if the node is eligible and the proposal does not look secret |
| `RetryHealing.ResolveRetryPolicy` | internal/domain/retrypolicy.go:50-107 | accepts exactly the retry grammar and returns the configured policy with its defaults |
| `RetryHealing.ResolveRetryMatchers` | internal/domain/retrypolicy.go:109-143 | accepts exactly absent lists and lists of at most twenty distinct trimmed strings, and returns their texts |
| `RetryHealing.MatchersExactly` | internal/engine/autohealing.go:414-429 | a matcher is a text of 1 to 64 characters that begins and ends visibly; the healing grammar also wants it on one line |
| `RetryHealing.GrammarsDiffer` | internal/domain/retrypolicy.go:50-107 | apart from repeated matchers, the healing grammar is exactly the policy grammar without single attempts, without a maximum below the delay, and with lists of at most sixteen one-line matchers |
| `RetryHealing.ProposalIsPolicyExactly` | internal/engine/autohealing.go:534-588 | any proposed retry block is accepted by the policy grammar if and only if the matcher lists it keeps have no duplicates |
| `RetryHealing.RepeatedMatcherRefused` | internal/engine/autohealing.go:414-429 | the input: a list that names a matcher twice passes the healing grammar and is refused by the retry policy |
| `RetryHealing.HealingHardensAcceptedPolicies` | internal/engine/autohealing.go:534-588 | for every accepted configuration or none, the proposal is accepted, attempts never fall, and the timeout doubles within 600000 ms |
| `RecoveryPolicy.HasDuplicates` | internal/domain/recoverycontract.go:516-525 | reports a duplicate exactly when two positions hold the same value |
| `RecoveryPolicy.ValidateFailure` | internal/domain/recoverycontract.go:242-282 | no problem exactly when the invariants hold and every override is a known class with a level at most the workflow's |
| `RecoveryPolicy.ValidateEvidence` | internal/domain/recoverycontract.go:286-307 | no problem exactly for one to six distinct known kinds with the base kinds; returns the set of kinds |
| `RecoveryPolicy.ValidateEffects` | internal/domain/recoverycontract.go:309-333 | no problem exactly for at most a hundred known effects on distinct nodes with ids of 1 to 200 bytes |
| `RecoveryPolicy.ValidateAutonomy` | internal/domain/recoverycontract.go:379-433 | no problem exactly when level 4 carries its evidence, policy, bounds and safe effects, and lower levels none of them |
| `RecoveryPolicy.ValidateRecoveryContract` | internal/domain/recoverycontract.go:220-240 | reports no problem exactly for a missing contract and for one valid in every section |
| `RecoveryPolicy.OverrideBounds` | internal/domain/recoverycontract.go:242-282 | an override can be added to a valid contract if and only if it is for a known failure and at most the contract's level |
| `RecoveryPolicy.LevelsBelowAutonomy` | internal/domain/recoverycontract.go:379-433 | a valid contract without overrides can be turned over to people at exactly the levels 0 to 3 |
| `RecoveryPolicy.NarrowBounds` | internal/domain/recoverycontract.go:379-433 | the bounds of an autonomous contract move freely, exactly within 1 to 1000 recoveries and 1 to 100 executions, and rollback stays required |
| `RecoveryPolicy.EffectBounds` | internal/domain/recoverycontract.go:309-333 | an effect can stand in a valid contract if and only if its node and kinds are known and, at level 4, it can be retried and leaves a machine receipt |
| `RecoveryPolicy.Assess` | internal/domain/technicalautonomy.go:427-508 | without a contract every gate is closed; under a valid contract an open policy gate means level 4 with bounds and safe effects, and all gates together mean exactly an allowed repair with enough evidence, history, blast radius and rollback |
| `RecoveryPolicy.PolicyGateForcesLevel4` | internal/domain/recoveryautonomy.go:93-114 | in a valid contract an open policy gate forces workflow level 4, present bounds and an open effect-receipt gate, even through a failure override |
| `RecoveryPolicy.OverrideDecides` | internal/domain/recoveryautonomy.go:93-114 | an override sets the level of failures of its own kind, without it the workflow's level holds, and no other gate or failure kind is touched |
| `RecoveryPolicy.EligibleExactly` | internal/domain/technicalautonomy.go:427-508 | in a valid contract eligibility is exactly level 4 with no override of the failure kind below it, an allowed repair, canary evidence or simulated evidence where it suffices, enough history, a bounded blast radius and rollback |
| `RecoveryPolicy.EligibilityMonotone` | internal/domain/technicalautonomy.go:439-447 | better evidence, more history and a smaller non-empty blast radius never cost eligibility |

## Left out

Weaker than the code, or covering part of it:

- CronExpression.ParseField: values and steps are mathematical integers, so a step near 2^63 that would wrap the loop variable around is not modelled.
- JsonRepair.RepairTruncated: scans characters instead of bytes; all structural characters are ASCII, so only malformed UTF-8 is not captured. `JsonValidity` recognises the grammar of RFC 8259 itself, not the decoder that reads the repaired text.
- Histogram.LatencyHistogram.Record: the counters are updated sequentially instead of atomically, and the minimum and maximum trackers are left out.
- Histogram.LatencyHistogram.Percentile: ranks are computed on reals, without floating-point rounding; what a negative number becomes as an unsigned rank depends on the platform and is a parameter.
- DecisionEngine.Decide: scores are reals, so rounding, infinities and NaN are not modelled; the reason text is left out.
- DecisionEngine.ReplayDecision: the explanation text is left out.
- InputDefaults.ValidateInputValue: problems carry kind, path and key, not the message text; their order within one level is unspecified.
- Guidance.ComposeBlock: secret scrubbing and the framing of each scope happen before, the two sections are inputs. The framing texts are parameters that must leave room for a separator, as the fixed texts of about 400 bytes do.
- CapabilityPrompt.CapabilityPromptBlock: the rendered size is an arbitrary function of the projection, a rendering error is not modelled, and the field lists of single tools are not projected.
- ExperienceContract.ValidateRequest: identifier and text grammars, the brief's key and the encoded size limits are parameters.
- ExperienceReplay.ProjectExperienceReplay: the encoded size limit on the evidence and context cancellation are left out.
- RetryHealing.ProjectHealingPatch: a retry object is a record of its known keys plus the set of other keys; node eligibility and the secret detector are parameters.
- RecoveryPolicy.ValidateRecoveryContract: counts problems without their text; the semantic section and the verification and recurrence envelopes are one boolean each.
- RecoveryPolicy.Assess: reports the gates without their reasons, actual and required values.
- DecisionDominance.DominatingStandsBefore: needs distinct node ids, since rows are found by id.
- RepairSafety.ClassIgnoresOrder: needs distinct node ids on each side; with repeated ids the last declaration wins and order matters.
- Downstream.ScheduleReady: the store's answers to queue claims are an arbitrary sequence; events, metrics and timestamps are left out, and store errors, which abort the pass, are not modelled.
- RunLifecycle.RunsRespectDependencies: passes and settlements may happen at any time in an active run, so every run of the server is a run here but not the other way round. Draft-step runs and reruns that start from finished nodes, redrives that replace the workflow, and the parking of a run by a semantic detector are not modelled.
- ApprovalRuns.GuardedMovesAfterApproval: says that an approval was settled, which includes skipped; see `PatchedStartsApproved` for when it was granted.

Not modelled:

- `collectAncestors` and `downstreamJoins` with the fork/join readiness rules: the same closed search as `ReachableNodesWithout`, with nothing harder to prove.
- The weekday heatmap of cron fires, and names for months and weekdays, which the grammar does not have.
- ISO 8601 durations and the resolution of approval waiting configuration: string recognition without a loop-level property.
- Parsing of technical recovery workflows, including their layout and canvas fields: field-by-field checks.
- `validInputSchemaShape` and the check of declared defaults against their own schema.
- Semantic recovery autonomy profiles and the combination of several profiles: finite tables.
- `ProposeDecision`'s call to an external provider with its timeout, and the decoding of proposals from JSON.
- Guarantees that rest on the store's queries: leases, deduplication claims, consent locks, breaker updates.
- HTTP handlers, authentication, auditing, configuration loading, model providers and metrics.
