# Verification of the AirHop scheduling core and the Buzz agent runtime

A Dafny model of the stateful and algebraic parts of the repository, with proofs.

| files | what they model |
|---|---|
| `Calendar`, `Booking`, `Schedule`, `ScheduleMaterializer`, `ScheduleTheorems`, `ScheduleFields` | recurrence rules expanded over a window, exceptions laid over them, the filtered and sorted schedule |
| `Seats`, `Age` | seat occupancy and booking status, completed months, birthdays |
| `AcpTurn`, `AcpClient`, `AcpTheorems`, `AcpOutput`, `AcpLife`, `AcpFrames` | one prompt turn of the Agent Client Protocol: the select loop over frames, steer requests and two deadlines, and the cancellation that follows it |
| `ConfigMerge` | the recursive configuration merge and the Codex configuration built with it |
| `ExecutionGraph` | the budgeted execution graph of an agent turn |
| `WelcomeRoute`, `WelcomeAnswers` | the gate that lets one agent answer a Welcome event, for a team of gates working at once |
| `ParentSupervisor` | the lease gate in front of parent-facing turns |
| `PoolLifecycle` | the lazily started agent pool with its retry back-off |
| `Subscriptions`, `SubscriptionFilter`, `ChannelFilters` | ordered, fail-closed event rules and the relay filters derived from them |
| `Resp` | the Redis protocol printer and parser of the relay benchmark |

Code that changes fields in place is a class whose methods are proved against a function of
the old state; the theorems are about that function, over every sequence of calls. Code made
of expressions is functions. Loops of the source are loops here. What comes from outside
(frames, clocks, server answers, write failures, evaluation outcomes) is an input of the step
that meets it, and the theorems hold for all of them. Each operation is also characterised
in the words of its inputs' own fields and figures, in both directions: what it accepts and
answers, and what it refuses, with the reason given.

Where the code differs from what its comments say, the model follows the code:

* Comments in `crates/buzz-acp/src/acp.rs` (1313-1314 and 1322-1323) say that a steer
  request in flight is settled on every return path. Two error propagations (1691 and 1705)
  leave without settling it: `AcpTheorems.DroppedExactly` says exactly when over runs, and
  `AcpTheorems.SteerCanBeDropped` is a run that does it.
* Comments in the same file (1895 and 1947-1955) say that a permission request that could not
  be answered is kept for the cancellation to tell. Such a request ends the loop, and the
  prompt then gives up its id (823-826), without which a cancellation writes nothing:
  `AcpLife.LeftOpenIsNeverTold`. The comments hold of a prompt stopped while the answer is
  being written: `AcpLife.StoppedMidAnswer`.
* `crates/buzz-acp/src/pool_lifecycle.rs` (95-98) says that a result from an older attempt is
  rejected. Attempt numbers start again at one after a pool is taken, so that holds within one
  start-up only: `PoolLifecycle.LateResult` gives the exact condition and
  `PoolLifecycle.CancelledWakeIsMistakenLater` a sequence of calls of the module's own
  interface in which an older result is accepted. The program makes no such sequence: it
  cancels a wake after the wake's task ended (`crates/buzz-acp/src/lib.rs` 2002-2009), and
  once it has taken a pool it begins no further wake (1816 and 2810-2813).
* The relay filter admits every event the matcher would accept in rule mode. In the other two
  modes a kinds override without stream messages (kind 9) drops the messages that the rule
  added for Welcome channels accepts: `ChannelFilters.NothingLostExactly`.
* A channel written in another spelling of its identifier is subscribed to and never matched:
  `Subscriptions.ScopesDiffer`.
* The attempt counter of the execution graph passes its limit exactly by the context loads
  made at the limit without context and with reserve left: `ExecutionGraph.LimitPassedExactly`,
  with `ExecutionGraph.CachedRefreshesPassTheLimit` a family of runs that do.
* A command reads back exactly when its byte strings decode as text: `Resp.CommandRoundTrip`.

## Model

| member | source | states |
|---|---|---|
| `ScheduleMaterializer.Materialize` | crates/airhop-core/src/schedule.rs:407-521 | the program's own loops produce the outcome the order-explicit specification fixes: the first error met, or the kept occurrences in order |
| `ScheduleMaterializer.ExpandRules` | crates/airhop-core/src/schedule.rs:435-507 | expanding rules one after another adds to the collected map what each adds, and stops at the first error in rule order |
| `ScheduleMaterializer.ExpandWindow` | crates/airhop-core/src/schedule.rs:450-474 | stepping day by day through the part of the window a rule owns collects each owned day, with the overflow of the last calendar day never reached |
| `ScheduleMaterializer.OverlayExceptions` | crates/airhop-core/src/schedule.rs:476-506 | exceptions of the rule replace, or pull in from outside the window, the occurrence they name; one that names an unowned date is an error |
| `ScheduleMaterializer.SortedInRange` | crates/airhop-core/src/schedule.rs:509-520 | every collected occurrence whose effective date is in range, once, strictly ordered by date, start and reference |
| `ScheduleMaterializer.IndexExceptionsChecked` | crates/airhop-core/src/schedule.rs:421-433 | the exceptions by reference, or the first reference given twice |
| `ScheduleMaterializer.IndexLooksUp` | crates/airhop-core/src/schedule.rs:421-433 | an indexed exception is looked up under its own reference |
| `ScheduleTheorems.AcceptedExactly` | crates/airhop-core/src/schedule.rs:407-507 | a schedule is produced exactly when an order-free condition on range, references, rules and the exceptions touching the range holds |
| `ScheduleTheorems.ExactContents` | crates/airhop-core/src/schedule.rs:407-521 | the list is exactly the occurrences due by the simple definition (every owned date, resolved, kept if its effective date is in range), each once, in order; where rules share an id the last owner of the date decides |
| `ScheduleTheorems.DistinctOwnersDecide` | crates/airhop-core/src/schedule.rs:450-474 | with distinct rule ids every owner of a date decides it |
| `ScheduleTheorems.AgreesWithSingleOccurrence` | crates/airhop-core/src/schedule.rs:524-543 | each listed occurrence is what the single-occurrence entry point returns for its reference and exception |
| `ScheduleTheorems.NeverOverflows` | crates/airhop-core/src/schedule.rs:469-473 | the date overflow error is unreachable for every request |
| `ScheduleTheorems.OutcomeIsUnique` | crates/airhop-core/src/schedule.rs:407-521 | the outcome of a request is determined, error included |
| `ScheduleTheorems.SplitRange` | crates/airhop-core/src/schedule.rs:450-520 | a range cut in two, for any rules: both halves succeed exactly when the whole does, and the whole list is their concatenation, even when exceptions move lessons across the cut |
| `ScheduleTheorems.OrderIndependent` | crates/airhop-core/src/schedule.rs:419-433 | permuting groups, rules and exceptions never changes acceptance, nor, when rules that share an id resolve alike wherever both own a date, the list |
| `ScheduleTheorems.OrderIndependentExactly` | crates/airhop-core/src/schedule.rs:461-467 | an accepted request gives the same occurrences under every permutation exactly when rules that share an id agree |
| `ScheduleTheorems.DisagreementShows` | crates/airhop-core/src/schedule.rs:461-467 | where two such rules disagree, a permutation with a different result |
| `ScheduleTheorems.DistinctIdsAgree` | crates/airhop-core/src/schedule.rs:461-467 | with distinct rule ids the condition holds |
| `ScheduleTheorems.SameContentsSameList` | crates/airhop-core/src/schedule.rs:514-519 | the sort key is total: ordered lists with the same members are equal |
| `Schedule.CancellationKeepsTheOverride` | crates/airhop-core/src/schedule.rs:545-658 | cancelling an overridden lesson with its resolved values keeps every effective value |
| `Schedule.EffectiveDate` | crates/airhop-core/src/schedule.rs:660-665 | an occurrence's date is its exception's target date or the original date; nothing else moves a lesson |
| `ScheduleFields.ListedExactly` | crates/airhop-core/src/schedule.rs:407-658 | in the request's own fields: the list is exactly the lessons of its active rules on their days and weekdays, each field from snapshot, change, rule, group or policy in that order, with effective date in range |
| `ScheduleFields.ResolvedFollows` | crates/airhop-core/src/schedule.rs:545-658 | every field of an occurrence has its stated precedence: snapshot, then change (set, cleared or inherited), then rule, then group, then policy; with original times, status and exception id |
| `ScheduleFields.FollowingIsUnique` | crates/airhop-core/src/schedule.rs:545-681 | the precedence of the fields determines the occurrence |
| `ScheduleFields.ListedInOrder` | crates/airhop-core/src/schedule.rs:513-519 | the list runs by date, start time, rule and original date |
| `ScheduleFields.ProducedExactly` | crates/airhop-core/src/schedule.rs:159-177 | in the request's own fields: a schedule is produced exactly when range, rules, groups and the exceptions that concern the range are sound |
| `ScheduleFields.RangeThenExceptions` | crates/airhop-core/src/schedule.rs:415-433 | a reversed range is reported before all else, then the first lesson given two exceptions |
| `ScheduleFields.ErrorIsAboutTheFirstRule` | crates/airhop-core/src/schedule.rs:435-507 | any other error is true of the first rule at fault, all earlier rules being sound |
| `ScheduleFields.SingleOccurrenceExactly` | crates/airhop-core/src/schedule.rs:524-543 | what the single-occurrence entry point returns for every input |
| `ScheduleFields.DuplicatesExactly` | crates/airhop-core/src/schedule.rs:683-685 | counting distinct teachers finds exactly the lists in which one repeats |
| `ScheduleFields.WeekdaysFollow` | crates/airhop-core/src/schedule.rs:153-157 | weekdays follow one another from Monday, day 1 |
| `Seats.CapacityCheckIsExact` | crates/airhop-core/src/capacity.rs:153-163 | the check passes exactly when admitting the child leaves the occupancy as it was or within the limit |
| `Seats.OneSeatPerChild` | crates/airhop-core/src/capacity.rs:124-147 | a child already counted, by enrollment or booking, takes no further seat |
| `Seats.MovedLessonKeepsCoverage` | crates/airhop-core/src/capacity.rs:77-91 | an enrollment covers a moved lesson by its original weekday |
| `Seats.TransitionsReleaseOnly` | crates/airhop-core/src/booking.rs:39-75 | an allowed transition reaches its target and never turns a status without a seat into one with |
| `Seats.ReleasedForGood` | crates/airhop-core/src/booking.rs:46-63 | over any history a released booking keeps the status that released it |
| `Seats.ChangeOnlyReleases` | crates/airhop-core/src/capacity.rs:124-142 | a status change adds no participant to any lesson |
| `Seats.StepKeepsLimit` | crates/airhop-core/src/capacity.rs:145-163 | one guarded command keeps every lesson within its limit |
| `Seats.NeverOversold` | crates/airhop-core/src/capacity.rs:153-163 | over every run of guarded bookings and status changes, a lesson that starts within its limit stays within it |
| `Seats.SeatsTakenExactly` | crates/airhop-core/src/capacity.rs:67-142 | a child takes a seat exactly through an enrollment whose group, dates, status and chosen weekday cover the lesson, or a pending or confirmed booking of it |
| `Seats.TransitionsExactly` | crates/airhop-core/src/booking.rs:46-63 | the allowed changes of status, one by one |
| `Age.AgeExistsFromBirth` | crates/airhop-core/src/age.rs:71-82 | a month count exists exactly from the birth date on, with no loss in the narrowing to 32 bits |
| `Age.CountsMonthsReached` | crates/airhop-core/src/age.rs:71-82 | the count is the largest number of calendar months whose day has been reached |
| `Age.AgeSplits` | crates/airhop-core/src/age.rs:71-82 | splitting an age at any date loses at most one month and gains none |
| `Age.RisesWithLesson` | crates/airhop-core/src/age.rs:71-82 | the count rises with the lesson date |
| `Age.FallsWithBirth` | crates/airhop-core/src/age.rs:71-82 | the count falls with the birth date |
| `Age.AcceptedBirthDatesFormAnInterval` | crates/airhop-core/src/age.rs:45-57 | the birth dates a group accepts form an interval |
| `Age.LimitsAreSatisfiable` | crates/airhop-core/src/age.rs:18-32 | limits are accepted exactly when some age satisfies them |
| `Age.OneBirthdayAYear` | crates/airhop-core/src/agent_policy.rs:289-299 | each year after the birth year has exactly one birthday, with that age; earlier years have none |
| `Age.BirthdayCompletesYears` | crates/airhop-core/src/agent_policy.rs:289-299 | on a birthday the completed months are twelve a year, one fewer exactly for a 29 February birthday kept on the 28th |
| `Age.AcceptedExactly` | crates/airhop-core/src/age.rs:45-57 | a birth date is accepted exactly when it is not after the lesson, the youngest age is reached and the month after the oldest is not |
| `Age.BirthdayExactly` | crates/airhop-core/src/agent_policy.rs:289-299 | which date of a year is the birthday with which age, 28 February standing in for the 29th in common years |
| `AcpClientObject.AcpClient.ReadUntilResponse` | crates/buzz-acp/src/acp.rs:1301-1714 | the imperative loop over the client's fields equals the step function run over the passes, state and exit |
| `AcpClientObject.AcpClient.TakePass` | crates/buzz-acp/src/acp.rs:1335-1520 | one pass: deadline check first, then reader before steer channel before timer |
| `AcpClientObject.AcpClient.SendSteer` | crates/buzz-acp/src/acp.rs:1390-1490 | a steer request takes the next id, and is in flight only when its line was written |
| `AcpClientObject.AcpClient.RouteSteerResponse` | crates/buzz-acp/src/acp.rs:1552-1658 | a steer's response settles that steer and moves both copies of the hard deadline together |
| `AcpClientObject.AcpClient.HandlePermissionRequest` | crates/buzz-acp/src/acp.rs:1888-1963 | the pending permission fields after every branch of the handler |
| `AcpClientObject.AcpClient.HandleSessionUpdate` | crates/buzz-acp/src/acp.rs:1730-1832 | which updates set or clear the run id and which count as activity |
| `AcpClientObject.AcpClient.SessionPrompt` | crates/buzz-acp/src/acp.rs:770-831 | the prompt's whole effect on the client, for every end of the loop |
| `AcpClientObject.AcpClient.CancelWithCleanup` | crates/buzz-acp/src/acp.rs:940-969 | the stored deadline is taken and passed on to the drain |
| `AcpClientObject.AcpClient.CancelUntil` | crates/buzz-acp/src/acp.rs:1000-1048 | the drain: permission told, cancellation sent, then reading until the prompt's response or the deadline |
| `AcpClientObject.AcpClient.CancelWithGrace` | crates/buzz-acp/src/acp.rs:984-998 | the bounded drain, whose expiry is not the turn's hard timeout |
| `AcpTheorems.AcknowledgedExactlyOnce` | crates/buzz-acp/src/acp.rs:1311-1671 | every steer request received is acknowledged at most once, and exactly once on every exit that is not a propagated handler error |
| `AcpTheorems.PropagatedExitExactly` | crates/buzz-acp/src/acp.rs:1691-1705 | the loop propagates an error exactly on a request it cannot answer, and then drops the steer in flight unacknowledged |
| `AcpTheorems.DroppedExactly` | crates/buzz-acp/src/acp.rs:1311-1714 | over every run that ended: some steer request received is never acknowledged exactly when an unanswerable request was read while a steer was in flight, and then it is that steer alone |
| `AcpTheorems.SteerCanBeDropped` | crates/buzz-acp/src/acp.rs:1690-1692 | a run from the start of a loop that ends with a steer request received and never acknowledged |
| `AcpTheorems.SuccessExactlyWhenDelivered` | crates/buzz-acp/src/acp.rs:1552-1658 | success is acknowledged exactly for a steer whose own id some method-less, error-free response carried with a recognized outcome |
| `AcpTheorems.SteerIdIsNotThePrompts` | crates/buzz-acp/src/acp.rs:1372-1490 | a steer in flight has an id above the prompt's |
| `AcpTheorems.ReturnsThePromptsResponse` | crates/buzz-acp/src/acp.rs:1659-1674 | the loop returns a result exactly when it read the prompt's own response; no steer response is taken for it |
| `AcpTheorems.RunKeepsFreshIds` | crates/buzz-acp/src/acp.rs:1390-1490 | every request written in a run has its own id |
| `AcpOutput.SteersAreWrittenOnce` | crates/buzz-acp/src/acp.rs:1372-1490 | over every run each steer request received is written exactly once, unless it was refused for want of a transport or its write failed, and then never |
| `AcpOutput.SteersAreAddressed` | crates/buzz-acp/src/acp.rs:1372-1490 | every steer line of a run goes to the run then active, or without one by the extension method that was advertised, under the next id |
| `AcpOutput.RunIdIsTheLatest` | crates/buzz-acp/src/acp.rs:1730-1832 | over every run the active run id is the one last announced or cleared by the agent, or the one from before the loop |
| `AcpTheorems.HardDeadlineExactly` | crates/buzz-acp/src/acp.rs:1601-1629 | the hard deadline moves exactly on a delivered Goose or injected steer, and only forwards |
| `AcpTheorems.HardDeadlineNeverFalls` | crates/buzz-acp/src/acp.rs:1330-1368 | over every run the hard deadline never falls, and an ended loop changes no more |
| `AcpTheorems.AtMostOneOvershoot` | crates/buzz-acp/src/acp.rs:1343-1368 | even under a gapless stream, a select that ends past the hard deadline is the last one unless that frame renewed it |
| `AcpTheorems.TimeoutsAreClassified` | crates/buzz-acp/src/acp.rs:1335-1368 | a timeout names the earlier deadline, a tie is hard, and neither is early |
| `AcpTheorems.StoredDeadlineIsLive` | crates/buzz-acp/src/acp.rs:770-831 | at every point of a prompt the stored deadline equals the live one |
| `AcpTheorems.PromptLeavesItsDeadline` | crates/buzz-acp/src/acp.rs:770-831 | a timed-out prompt leaves its id and live deadline; every other end clears both |
| `AcpTheorems.CancellationInheritsTheDeadline` | crates/buzz-acp/src/acp.rs:940-969 | the cancellation after a timeout drains until the live hard deadline, renewals included, or the grace if later |
| `AcpTheorems.DrainIsClosed` | crates/buzz-acp/src/acp.rs:1000-1048 | the drain ends with a result exactly on the prompt's own response; unless the prompt left its steer channel behind, it takes no steer and keeps its deadline |
| `AcpTheorems.InterruptedClientCanDrain` | crates/buzz-acp/src/acp.rs:770-831 | what the drain needs, the live deadline included, holds wherever a prompt is stopped (in its own write, between passes, while the loop writes) and after one that timed out; only a stop in its own write leaves the steer channel |
| `AcpTheorems.PermissionStaysOpen` | crates/buzz-acp/src/acp.rs:1888-1963 | over every run a pending permission request is one not yet answered |
| `AcpOutput.PermissionsAreAnsweredInOrder` | crates/buzz-acp/src/acp.rs:1888-1963 | over every run the permission answers written are, in order, exactly one for each permission request read that could be answered |
| `AcpTheorems.CancellationAnswersPermission` | crates/buzz-acp/src/acp.rs:1000-1048 | for every client and every write failure: without a prompt in flight a cancellation writes nothing; with one it tells the open permission request before it is sent and before anything is read, or leaves it open when that write fails |
| `AcpLife.LeftOpenExactly` | crates/buzz-acp/src/acp.rs:1888-1963 | over every run that starts with none, a permission request is open at the end exactly when a pass read it and could not answer it |
| `AcpLife.LeftOpenIsNeverTold` | crates/buzz-acp/src/acp.rs:808-827 | a prompt that returns with a request open has propagated an error and given up its id, so neither cancellation that follows writes anything |
| `AcpLife.StoppedMidAnswer` | crates/buzz-acp/src/acp.rs:1010-1048 | wherever a prompt is stopped with a request open, the bounded cancellation tells that request before it is sent |
| `AcpLife.LifeIsSound` | crates/buzz-acp/src/acp.rs:770-1048 | over a client's whole life of prompts, stops, cancellations, setup requests and channel installs, every request written has its own id below the next, an open permission request is unanswered, and the prompt id in hand was given out |
| `AcpLife.EarlierResponsesDoNotCount` | crates/buzz-acp/src/acp.rs:1546-1674 | at any point of a client's life a prompt waits for an id no request had, and a response to any earlier request only counts as activity |
| `AcpLife.OtherResponsesDoNotCount` | crates/buzz-acp/src/acp.rs:1000-1048 | in a drain the response to any request but the cancelled prompt only counts as activity |
| `AcpTheorems.FirstOfKindIsFirst` | crates/buzz-acp/src/acp.rs:1888-1963 | the option chosen is the first of its kind, and none is chosen exactly when there is none |
| `AcpFrames.AnsweredAsOffered` | crates/buzz-acp/src/acp.rs:1910-1942 | over every run a permission request is answered with an option id exactly when a pass read it, could write, and that is the first allow_once option's id, or without one the first reject_once option's, "reject" if it has none |
| `AcpFrames.UnanswerableExactly` | crates/buzz-acp/src/acp.rs:1888-1945 | a permission request cannot be answered exactly without an id, without options, with an allow_once option that has no id, with neither kind, or when the write fails |
| `AcpFrames.UnknownMethodsAreRefused` | crates/buzz-acp/src/acp.rs:1693-1707 | over every run "method not found" answers exactly the requests of unknown methods that carry an id |
| `AcpFrames.AcknowledgedAsMet` | crates/buzz-acp/src/acp.rs:1372-1671 | over every run each kind of acknowledgement, with its code or text, was given exactly when some pass met what it stands for |
| `AcpFrames.EndsExactly` | crates/buzz-acp/src/acp.rs:1500-1711 | which exit each line of the agent leads to, and which lines lead to none |
| `AcpFrames.ActivityExactly` | crates/buzz-acp/src/acp.rs:1548-1550 | what counts as activity and where the idle deadline then stands |
| `AcpFrames.PromptStarts` | crates/buzz-acp/src/acp.rs:770-804 | a prompt's line, id and two first deadlines |
| `AcpFrames.PromptReturns` | crates/buzz-acp/src/acp.rs:796-831 | a prompt's result for every way it can end, stop reasons included |
| `AcpFrames.CancellationReturns` | crates/buzz-acp/src/acp.rs:984-998 | the bounded cancellation's result for every way its drain can end |
| `ConfigMerge.DeepMerge` | crates/buzz-acp/src/acp.rs:219-239 | the in-place recursive merge computes the merge function |
| `ConfigMerge.MergedAt` | crates/buzz-acp/src/acp.rs:219-239 | path by path: a leaf or object is in the merge exactly when the overlay has it, or the base has it and the overlay does not replace it |
| `ConfigMerge.PathsDetermine` | crates/buzz-acp/src/acp.rs:219-239 | objects with the same leaves and object paths are equal, so the previous row fixes the merge |
| `ConfigMerge.EmptyIsIdentity` | crates/buzz-acp/src/acp.rs:219-239 | the empty object is a two-sided identity |
| `ConfigMerge.Idempotent` | crates/buzz-acp/src/acp.rs:219-239 | merging a value with itself changes nothing |
| `ConfigMerge.Absorbs` | crates/buzz-acp/src/acp.rs:219-239 | applying the same overlay twice is applying it once |
| `ConfigMerge.AssociativeExactly` | crates/buzz-acp/src/acp.rs:219-239 | three merges associate exactly unless a non-object stands between two objects and the outer one adds a key there |
| `ConfigMerge.LayersAt` | crates/buzz-acp/src/acp.rs:302-326 | of several layers, a leaf is present exactly when some layer has it and no later one replaces it |
| `ConfigMerge.BuildCodexConfig` | crates/buzz-acp/src/acp.rs:268-356 | the program's loops compute the specified configuration or the first error |
| `ConfigMerge.CodexConfigContents` | crates/buzz-acp/src/acp.rs:268-356 | a built configuration grants network access, keeps every other parent leaf, and has no leaf from anywhere else |
| `ConfigMerge.CodexConfigFails` | crates/buzz-acp/src/acp.rs:327-356 | when all parts parse, building fails exactly if the merged sandbox setting is not an object |
| `ConfigMerge.CodexOutcomeExactly` | crates/buzz-acp/src/acp.rs:268-356 | the outcome for every input: none exactly without the generated overlay or entry, which error for which first fault, and the forced setting in every configuration |
| `ConfigMerge.EntriesAppend` | crates/buzz-acp/src/acp.rs:280-284 | the entries are the values of that name, all of them, in order |
| `ExecutionGraph.Graph.Prepare` | crates/airhop-core/src/agent_graph.rs:123-191 | the new fields and the refusal, for every action, cached or not |
| `ExecutionGraph.CountersCountTheRun` | crates/airhop-core/src/agent_graph.rs:123-191 | over every run uncached lookups made equal reads plus recovery contexts, writes made equal the write counter |
| `ExecutionGraph.CacheReuseIsBounded` | crates/airhop-core/src/agent_graph.rs:142-155 | over every run the cached preparations allowed for a key are its repeat count, capped at two |
| `ExecutionGraph.LoadedPassesAreBounded` | crates/airhop-core/src/agent_graph.rs:123-191 | at most 24 passes happen with context loaded |
| `ExecutionGraph.Budgets` | crates/airhop-core/src/agent_graph.rs:105-191 | the four budgets together, for every role and run |
| `ExecutionGraph.RemainingIsExact` | crates/airhop-core/src/agent_graph.rs:90-103 | over every run the remaining counters tell exactly when a read or write is refused for want of budget, and with what was spent add up to the limits |
| `ExecutionGraph.AllowedExactly` | crates/airhop-core/src/agent_graph.rs:123-191 | in every reachable state, in figures and roles: exactly when each action is allowed, cached or not |
| `ExecutionGraph.RefusedBecause` | crates/airhop-core/src/agent_graph.rs:123-191 | in every reachable state which reason a refusal gives |
| `ExecutionGraph.CostsExactly` | crates/airhop-core/src/agent_graph.rs:142-155 | which preparations cost an attempt and a use of their key |
| `ExecutionGraph.NodeFollowsTheLastMove` | crates/airhop-core/src/agent_graph.rs:123-216 | over every run the graph stands where the last operation that moved it put it |
| `ExecutionGraph.LimitPassedExactly` | crates/airhop-core/src/agent_graph.rs:123-155 | over every run the attempts beyond 24 are exactly the context loads made at the limit without context and with reserve left, so the limit is passed exactly when there is one |
| `ExecutionGraph.CachedRefreshesPassTheLimit` | crates/airhop-core/src/agent_graph.rs:142-155 | a family of runs that pass it: cached context loads before the first result raise attempts and use no reserve |
| `ExecutionGraph.NothingIsRefunded` | crates/airhop-core/src/agent_graph.rs:123-216 | no operation lowers a counter, and a refusal spends no lookup or write |
| `ExecutionGraph.RolesKeepTheirPlace` | crates/airhop-core/src/agent_graph.rs:105-191 | in every run, answers from the cache aside, only Fizz delegates and neither Fizz nor the analyst prepares or commits a change; and everything but a context load, cached or not, follows a context result not invalidated since |
| `ExecutionGraph.ContextLoadedExactly` | crates/airhop-core/src/agent_graph.rs:194-211 | context is loaded exactly when a context result arrived since the last invalidation |
| `ExecutionGraph.ContextAllowedExactly` | crates/airhop-core/src/agent_graph.rs:129-171 | when a fresh context load is allowed in a reachable state |
| `ExecutionGraph.Escape` | crates/airhop-core/src/agent_graph.rs:129-216 | a turn that has not replied can reply at once, or after one context load, or has used both reserves, however much budget is spent |
| `ExecutionGraph.DoneIsFinalForPreparations` | crates/airhop-core/src/agent_graph.rs:123-130 | after the reply no preparation is allowed or changes anything |
| `ExecutionGraph.DoneExactly` | crates/airhop-core/src/agent_graph.rs:194-216 | over every run the graph is done exactly when a reply was published and only preparations and publications followed |
| `WelcomeRoute.WelcomeRouteGate.Begin` | crates/buzz-acp/src/airhop.rs:518-646 | what an evaluation does up to the first wait, and what it waits for |
| `WelcomeRoute.WelcomeRouteGate.ManifestArrived` | crates/buzz-acp/src/airhop.rs:592-667 | what it does with a fetched manifest |
| `WelcomeRoute.WelcomeRouteGate.ClaimArrived` | crates/buzz-acp/src/airhop.rs:544-590 | what it does with a route decision |
| `WelcomeRoute.WelcomeRouteGate.AcceptOnce` | crates/buzz-acp/src/airhop.rs:669-684 | an event is recorded and accepted exactly when it was not recorded before |
| `WelcomeRoute.ClaimStep` | crates/buzz-acp/src/airhop.rs:544-590 | a claimed event is accepted exactly when the decision names this gate, its role and this event, and it is new |
| `WelcomeRoute.PlayIsSingle` | crates/buzz-acp/src/airhop.rs:518-684 | the invariant every interleaving of a team's evaluations keeps: accepted events are recorded, claimed ones are the target's |
| `WelcomeRoute.PlayIsVetted` | crates/buzz-acp/src/airhop.rs:518-684 | the invariant every interleaving keeps under any server: what is cached, awaited or accepted has been checked against what that gate was told |
| `WelcomeRoute.OneResponder` | crates/buzz-acp/src/airhop.rs:518-684 | when claims of one event id name one key, at most one gate of a team accepts a claimed event, the one named, at most once, whatever manifests the gates are given; no gate accepts any event twice |
| `WelcomeRoute.OnlyAuthorizedEventsAreAccepted` | crates/buzz-acp/src/airhop.rs:592-667 | in every run and under any server, an accepted kickoff or handoff was plausible and registered in a manifest the server gave this gate, and everything but a kickoff was claimed for it |
| `WelcomeRoute.AcceptedStaysSeen` | crates/buzz-acp/src/airhop.rs:669-684 | an accepted event is a duplicate at that gate from then on |
| `WelcomeAnswers.OrdinaryIsAnswered` | crates/buzz-acp/src/airhop.rs:518-590 | in every interleaving an ordinary event a working gate evaluates is accepted exactly when the decision that arrives is for that gate, event and channel, or it had been accepted before |
| `WelcomeAnswers.KickoffIsAnswered` | crates/buzz-acp/src/airhop.rs:592-616 | the same for a kickoff: exactly when it is credible and the manifest that arrives backs it |
| `WelcomeAnswers.HandoffIsAnswered` | crates/buzz-acp/src/airhop.rs:618-646 | the same for a credible, backed handoff: exactly when the claim that follows decides for the gate |
| `WelcomeAnswers.EvaluationAnswers` | crates/buzz-acp/src/airhop.rs:518-657 | what an evaluation of a kickoff or handoff comes to at once, with or without a manifest in hand |
| `WelcomeAnswers.ManifestAnswers` | crates/buzz-acp/src/airhop.rs:592-667 | what the manifest that arrives decides |
| `WelcomeAnswers.BeginsExactly` | crates/buzz-acp/src/airhop.rs:518-646 | from tags and settings alone: every outcome of an evaluation up to its first wait |
| `WelcomeAnswers.ExactlyOneResponder` | crates/buzz-acp/src/airhop.rs:518-684 | with consistent claims an ordinary event evaluated by the named gate is accepted by that gate and by no other through a claim |
| `WelcomeAnswers.SameTextExactly` | crates/buzz-acp/src/airhop.rs:701-711 | texts match when they differ in the case of ASCII letters only |
| `ParentSupervisor.ParentSupervisorGate.ClaimBatch` | crates/buzz-acp/src/airhop.rs:179-271 | the lease map and the decision after a claim, for every order of failure |
| `ParentSupervisor.ParentSupervisorGate.RequestClaim` | crates/buzz-acp/src/airhop.rs:208-239 | the claim a conversation with the server comes to, second request for staff control included |
| `ParentSupervisor.ParentSupervisorGate.NeedsReply` | crates/buzz-acp/src/airhop.rs:288-310 | true exactly for a held lease the server says needs a reply; changes no lease |
| `ParentSupervisor.ParentSupervisorGate.FinishChannel` | crates/buzz-acp/src/airhop.rs:315-365 | the lease goes exactly on a terminal status or 403, 404, 409, and the input is dispatched again exactly otherwise or on failed, 403, 409 |
| `ParentSupervisor.ParentSupervisorGate.FinishIdleChannels` | crates/buzz-acp/src/airhop.rs:367-382 | exactly the leases of idle channels whose own request releases them go, in whatever order they are asked |
| `ParentSupervisor.ClaimNamesEveryEventOnce` | crates/buzz-acp/src/airhop.rs:395-405 | a claim names every event of the batch once, the newest trigger first, a cancelled one only when nothing else is there |
| `ParentSupervisor.CandidatesAreChecked` | crates/buzz-acp/src/airhop.rs:208-239 | a staff control candidate leads to a claim exactly when it passes every check |
| `ParentSupervisor.LeaseLeavesExactly` | crates/buzz-acp/src/airhop.rs:315-382 | a lease leaves the map exactly when the server lets that lease go, and is never replaced |
| `ParentSupervisor.LeaseEntersExactly` | crates/buzz-acp/src/airhop.rs:179-271 | a lease enters exactly on a granted claim of an enabled gate with an empty map |
| `ParentSupervisor.RunHoldsTheOnlyLease` | crates/buzz-acp/src/airhop.rs:179-271 | an enabled gate lets a turn run only from an empty map and then holds that turn's lease alone |
| `ParentSupervisor.DropExactly` | crates/buzz-acp/src/airhop.rs:385-393 | a batch is given up exactly when it can never be claimed |
| `ParentSupervisor.RetryExactly` | crates/buzz-acp/src/airhop.rs:179-271 | a batch is kept for another try exactly in the listed cases |
| `ParentSupervisor.PlainClaims` | crates/buzz-acp/src/airhop.rs:208-239 | without a control candidate the first reply is the claim or its error |
| `ParentSupervisor.CandidateClaims` | crates/buzz-acp/src/airhop.rs:208-239 | with one, every way it fails, in order, and what the second reply then says |
| `ParentSupervisor.FinishAnswersExactly` | crates/buzz-acp/src/airhop.rs:337-364 | which answers release a lease and which call for another dispatch |
| `ParentSupervisor.OneLeaseAtATime` | crates/buzz-acp/src/airhop.rs:179-382 | over every run grants and releases take turns, each release gives back the last grant, and at most one lease is held |
| `ParentSupervisor.NoSecondTurnBeforeRelease` | crates/buzz-acp/src/airhop.rs:179-382 | between two turns let run, the server let the first lease go |
| `PoolLifecycle.PoolLifecycle.StartWakeIfDue` | crates/buzz-acp/src/pool_lifecycle.rs:37-58 | when a wake begins, with which token, and that nothing else changes |
| `PoolLifecycle.PoolLifecycle.CompleteWake` | crates/buzz-acp/src/pool_lifecycle.rs:99-120 | a result is taken exactly by the wake with its token; otherwise nothing changes |
| `PoolLifecycle.PoolLifecycle.CancelWake` | crates/buzz-acp/src/pool_lifecycle.rs:91-93 | a cancelled wake fails with its retry time, any other token changes nothing |
| `PoolLifecycle.PoolLifecycle.TakeReady` | crates/buzz-acp/src/pool_lifecycle.rs:60-68 | a ready pool is handed out once; any other state is put back |
| `PoolLifecycle.RetryDelayIsCappedDoubling` | crates/buzz-acp/src/pool_lifecycle.rs:123-132 | the delay is five seconds doubled at each failure, at most 300, for every 32-bit attempt despite fixed-width arithmetic |
| `PoolLifecycle.RunsAreCoherent` | crates/buzz-acp/src/pool_lifecycle.rs:37-132 | over every run with a clock that never falls, attempt, retry time and the wakes so far agree |
| `PoolLifecycle.WakesAreSpacedOut` | crates/buzz-acp/src/pool_lifecycle.rs:37-132 | how long after the first the n-th wake begins at the earliest |
| `PoolLifecycle.NoEarlyWake` | crates/buzz-acp/src/pool_lifecycle.rs:37-58 | a further wake begins only after a failure, its delay, and with the next token |
| `PoolLifecycle.WakesExactly` | crates/buzz-acp/src/pool_lifecycle.rs:37-58 | exactly when a wake begins, with which token |
| `PoolLifecycle.CompletesExactly` | crates/buzz-acp/src/pool_lifecycle.rs:99-132 | what a result does to the state, with the retry time in figures |
| `PoolLifecycle.NothingIsLost` | crates/buzz-acp/src/pool_lifecycle.rs:37-120 | every wake fails, is accepted or is under way; accepted pools are taken in order, each once, at most one waiting |
| `PoolLifecycle.ReadyIsNeverReplaced` | crates/buzz-acp/src/pool_lifecycle.rs:37-120 | while a pool waits, no call but taking it changes anything |
| `PoolLifecycle.LateResult` | crates/buzz-acp/src/pool_lifecycle.rs:99-120 | the result of any earlier wake has an effect exactly when its token equals that of a wake under way |
| `PoolLifecycle.OlderResultIsRefused` | crates/buzz-acp/src/pool_lifecycle.rs:95-113 | within one start-up the result of an older wake changes nothing |
| `PoolLifecycle.CancelledWakeIsMistakenLater` | crates/buzz-acp/src/pool_lifecycle.rs:95-113 | a run in which a cancelled wake's late result becomes the pool of a newer wake |
| `Subscriptions.ScopesDiffer` | crates/buzz-acp/src/filter.rs:63-71 | the matcher's channels are subscribed to; the converse fails exactly for another spelling |
| `SubscriptionFilter.SubscriptionMatcher.MatchEvent` | crates/buzz-acp/src/filter.rs:368-460 | the loop answers with the first rule that decides, when it wins, and updates exactly the counters of evaluated rules |
| `SubscriptionFilter.AnswerIsUnique` | crates/buzz-acp/src/filter.rs:368-460 | the specification leaves one answer |
| `SubscriptionFilter.AnsweredExactly` | crates/buzz-acp/src/filter.rs:368-460 | in the rules' own fields: a rule is the answer exactly when it suits the event, any enabled filter holds, and every earlier rule does not suit it or its filter is false; with the prompt tag given |
| `SubscriptionFilter.CountedExactly` | crates/buzz-acp/src/filter.rs:401-446 | in the same terms: exactly which counters a call changes, and how |
| `SubscriptionFilter.NothingFailedBefore` | crates/buzz-acp/src/filter.rs:401-446 | an answer means every earlier rule did not apply or evaluated to false |
| `SubscriptionFilter.LaterRulesDoNotMatter` | crates/buzz-acp/src/filter.rs:401-446 | after the rule that decides, by error, timeout or disabling too, no rule is consulted |
| `SubscriptionFilter.CounterIsTimeoutsSinceLastOk` | crates/buzz-acp/src/filter.rs:415-436 | over every run a counter is the number of timeouts since that rule last evaluated to true or false, and at most five |
| `SubscriptionFilter.CounterIsBounded` | crates/buzz-acp/src/filter.rs:402-436 | over every run no counter passes five |
| `SubscriptionFilter.DisabledExactly` | crates/buzz-acp/src/filter.rs:402-436 | a rule is disabled exactly when five of its evaluations timed out since the last one that came to true or false |
| `SubscriptionFilter.DisabledForever` | crates/buzz-acp/src/filter.rs:402-413 | a disabled rule is never evaluated again |
| `SubscriptionFilter.DisabledRuleTurnsAway` | crates/buzz-acp/src/filter.rs:402-413 | every event that reaches a disabled rule is turned away |
| `ChannelFilters.ResolveChannelFilters` | crates/buzz-acp/src/config.rs:1356-1448 | the loops give each discovered channel the filter it should get and no other channel any |
| `ChannelFilters.ResolveDynamicChannelFilter` | crates/buzz-acp/src/config.rs:1459-1538 | the separately written resolver gives the same filter, so the two agree on every discovered channel in all modes |
| `ChannelFilters.MergedFilterIsTheUnion` | crates/buzz-acp/src/config.rs:1410-1444 | a channel's filter exists exactly when a rule names it, and is exactly the union of its rules' kinds, mentions only when all want that |
| `ChannelFilters.NoEventIsLost` | crates/buzz-acp/src/config.rs:1410-1444 | in rule mode whatever the matcher accepts the channel's filter admits |
| `ChannelFilters.NothingLostExactly` | crates/buzz-acp/src/lib.rs:1485-1533 | for the rules the program starts with, in all modes: no accepted event is held back exactly when the kinds override is absent, or not empty and keeps stream messages for a Welcome channel |
| `ChannelFilters.LossyDrops` | crates/buzz-acp/src/airhop.rs:22-41 | otherwise an event that a startup rule accepts and the filter holds back |
| `ChannelFilters.FixedFilterExactly` | crates/buzz-acp/src/config.rs:1374-1407 | outside rule mode the filter of a channel in terms of the configuration |
| `ChannelFilters.StartupAnswersExactly` | crates/buzz-acp/src/lib.rs:1485-1533 | outside rule mode exactly which events the program's own rules answer, and with which tag |
| `Resp.EncodeCommand` | perf/relay_bus_scaling.py:110-117 | the loop that builds the frame computes the encoding |
| `Resp.BinaryStream.Reply` | perf/relay_bus_scaling.py:129-153 | reading from a stream position gives the parsed reply or its error, and where it leaves the stream in either case |
| `Resp.BinaryStream.Line` | perf/relay_bus_scaling.py:120-126 | a line is read up to its CRLF, anything else is an error, and the stream is left behind what was read in either case |
| `Resp.ReplyRoundTrip` | perf/relay_bus_scaling.py:129-153 | every reply, nested to any depth, is read back from its printed form with exactly the suffix left, exactly when its byte strings are text |
| `Resp.CommandRoundTrip` | perf/relay_bus_scaling.py:110-153 | reading an encoded command returns its byte strings, empty ones and ones with CRLF included, and leaves exactly the suffix, exactly when all of them are text |
| `Resp.PipelineRoundTrip` | perf/relay_bus_scaling.py:110-153 | commands written back to back are read back in order |
| `Resp.EncodingIsInjective` | perf/relay_bus_scaling.py:110-117 | different commands have different encodings |
| `Resp.ReadExtends` | perf/relay_bus_scaling.py:129-153 | bytes after a finished reply never change it |
| `Resp.TruncatedCommandFails` | perf/relay_bus_scaling.py:120-153 | a command cut short anywhere is an error, never a shorter command |
| `Resp.IntegerRoundTrip` | perf/relay_bus_scaling.py:129-153 | every integer is read back from its decimal form |
| `Resp.LineReplies` | perf/relay_bus_scaling.py:133-136 | a status line reads as its text, an error line raises it, and either is consumed |
| `Resp.NegativeCounts` | perf/relay_bus_scaling.py:139-152 | minus one is nothing; any other negative count reads an empty list and never a string |
| `Resp.UnterminatedBulk` | perf/relay_bus_scaling.py:143-146 | a string not followed by CRLF is an error |
| `Resp.UnreadableReplies` | perf/relay_bus_scaling.py:120-153 | nothing to read, an unknown prefix, a line without its CR |
| `Resp.IntegerSpellings` | perf/relay_bus_scaling.py:137-150 | space around an integer and a plus sign before it change nothing |
| `Resp.UnderscoresDoNotCount` | perf/relay_bus_scaling.py:137-150 | nor does an underscore between digits |
| `Resp.DigitsOnly` | perf/relay_bus_scaling.py:137-150 | what reads as digits has a digit and nothing but digits and underscores |
| `Resp.CommandOnTheWire` | perf/relay_bus_scaling.py:110-117 | a command's bytes, written out |

## Left out

- ScheduleTheorems.OrderIndependent: assumes distinct group ids, because a later group of the same id replaces an earlier one at schedule.rs:419-420; and says nothing about which error is reported when permuted input is refused, since the code reports the first it meets.
- ScheduleMaterializer.SortedInRange: insertion stands for the library's stable sort, and the collected map is walked in an arbitrary order; the result is the same because the key is total.
- Calendar dates are day numbers for schedules and year, month, day for ages; the conversion between the two is not modelled.
- Fields of a lesson that are only copied (title, notes, price, names) and group age limits, which the materializer does not read.
- AcpLife.LifeIsSound: setup requests take an id and are written; the separate loop that waits for their responses (acp.rs:1177-1250) is not modelled.
- AcpLife.StoppedMidAnswer: a line counts as written when its write returned; a stop in the middle of a write may leave part of a line, or a whole one, behind.
- AcpTheorems.RunKeepsFreshIds: request ids are unbounded; the 64-bit counter would wrap after 2^64 requests.
- AcpTheorems.AtMostOneOvershoot: the length of one select is an input; nothing bounds how long a single frame takes to handle.
- JSON text, UTF-8, line framing, process pipes and their back-pressure: a pass brings a parsed message, an unreadable line, end of file or an error.
- Usage tracking, observer frames, session titles and logs.
- ConfigMerge.BuildCodexConfig: parsing environment text as JSON is an input; key order inside an object is not modelled.
- Parts of the execution graph's JSON view (`remaining` as a report) beyond the three remaining counters.
- WelcomeRoute.OneResponder: assumes the server names one target per event id and that agent keys are distinct, in the lower case the constructor gives them; kickoffs need no claim, so they are bounded per gate only.
- WelcomeRoute.WelcomeRouteGate.Begin: evaluations interleave at their waits on the server; a thread cannot be stopped inside a locked section, and lock poisoning is not modelled.
- ParentSupervisor.OneLeaseAtATime: calls follow one another, as one agent per process (config.rs:1150-1162) makes them; two claims waiting on the server at once are outside the model.
- ParentSupervisor.ParentSupervisorGate.ClaimBatch: the batch id (SHA-256), the request body, the classification of staff intent and the writing of the grant file are inputs.
- PoolLifecycle.PoolLifecycle.CompleteWake: clock readings are unbounded; the overflow of an instant at the end of its range is not modelled.
- The pool task itself, and the event loop around the lifecycle.
- SubscriptionFilter.SubscriptionMatcher.MatchEvent: an expression's evaluation is an arbitrary outcome out of four; the expression language, its length limit, the semaphore and the blocking threads are foreign. Events are matched one at a time.
- Counters shared between clones of a rule: the model has one list of rules.
- ChannelFilters.NothingLostExactly: covers channels that get a filter; a channel outside `--channels` gets none by design. `since` and the relay's own matching of tags other than `p` are not modelled.
- Rule loading and its validation, and the command line.
- Resp.BinaryStream.Reply: which byte strings are UTF-8 is an arbitrary predicate, and decoded text stays bytes; the digit limit of Python's integer parsing is not modelled.
- Resp.EncodeCommand: a part is a byte string; the encoding of string arguments to bytes is an input.
- Agent access, consultation, conversations, organization, knowledge and learning modules, user interfaces and deployment scripts: single-pass checks that would only add easy members.
