# Poll operator: a verified model

The operator lets users create `Poll` objects and vote with `PollResponse`
objects. Two reconcilers keep the statuses of both up to date. Each watches the
objects of the other and each writes only status (the response reconciler also
sets an owner reference). Two admission webhooks decide which specs can be
stored at all, and a form handler turns a submitted voting form into a response.

The project models three layers and proves how they hang together.

* **Algorithms.** The loops of the source as methods over sequences and maps,
  and as classes whose fields are set step by step, each proved against a
  function or a declarative rule: `Conditions`, `FieldErrors`, `PollWebhook`,
  `PollResponseWebhook`, `PollResponseController`, `PollController`, `Tally`,
  `Forms`.
* **The protocol.** `Cluster` is a state machine: clock, stored Polls and
  responses, the two deduplicating work queues, the pending `RequeueAfter`
  timers, and a step for everything that can happen (admitted edits, time, timers,
  resyncs, a restart of the manager, a reconcile of any queued key). There may be
  any number of Polls and responses. `Manager` holds the same state in a class
  whose methods are written like the reconcilers and call the algorithms above;
  each is proved to take exactly the step of the state machine.
* **Laws.** `WakeUps`, `Quiescence`, `Convergence`, `Timeline` and `Verdicts` hold for
  every state of every run of the state machine; `TallyLaws`, `StoreTally`,
  `PollStatusLaws`, `AdmissionLaws` and `ClockDrift` relate the functions.

`dafny verify dfyconfig.toml` checks everything.

## Conventions

* A Go string is a byte string: one `char` stands for one byte. `strings.TrimSpace`
  works on the UTF-8 encodings of the characters with the White_Space property.
* Objects are keyed by name; all of them live in one namespace.
* A reconcile is one step with fresh reads and writes that succeed. The status
  patch is a JSON Merge Patch (section 2 of RFC 7396) on a fresh base, where
  arrays are replaced whole, so it assigns the desired status.
* Of two pending `RequeueAfter` times for the same key the earlier one stays, as in
  the delaying queue of controller-runtime.
* All clock reads of one reconcile agree, except in `ClockDrift`.
* The owner of a response is the uid in its controller reference.
  `controllerutil.SetControllerReference` compares references by group, kind and
  name, so it replaces one to an earlier Poll of the same name: a response follows a
  Poll that is created again, see `Verdicts.ResponseFollowsRecreatedPoll`.
* Schema rules that admission builds on are preconditions: question ids are
  unique within a Poll, answer ids within a response, a response names a Poll,
  and texts are bounded.
* The int32 counters and the int32 conversion of the text length wrap around in
  the model as they do in Go; the lemmas say when that does not show.
* `meta.SetStatusCondition` is modelled as the function the reconcilers rely on:
  find by type and update, else append; the transition time moves with the status.

## Where code and documentation differ

The model follows the code.

* `validateResponse` says that it rejects responses submitted after the Poll
  closed (`internal/controller/pollresponse_controller.go:145`). It tests the
  current time, so after closing every response ends up rejected and the results
  are zero: `Quiescence.ClosedPollCountsNothing`.
* The reconciler speaks of a lifecycle Pending, Open, Closed
  (`internal/controller/poll_controller.go:54`). Pending is never produced and
  Closed is not terminal: `Timeline.PhaseAndTimestamps`, `Timeline.ClosedPollReopens`.
* `maxResponseLength` is documented in characters (`api/v1/poll_types.go:102`) and
  compared with bytes.
* `respondent` is documented as a deduplication key
  (`api/v1/pollresponse_types.go:73-75`); no code reads it.
* `validatePollUpdate` compares with the immediate predecessor only, so an id
  that is removed and added again may change its type:
  `PollWebhook.RemovedIdMayChangeType`. The type is pinned down if and only if the id
  was never taken out: `PollWebhook.TypeIsForcedIff`.
* `statusEqual` reads a missing option as 0 votes, so it is not symmetric and does
  not decide equality by itself: `PollStatusLaws.StatusEqualIsNotSymmetric`. When
  it does is `PollStatusLaws.StatusEqualMeans`, and that a skipped write never loses anything
  in a run is `PollStatusLaws.SkippedWriteLosesNothing`.
* A Poll whose closing time is moved can show a `closedAt` before its `closesAt`:
  `Timeline.MovedClosingKeepsOldStamp`. It does not, after a reconcile that finds the
  Poll closed, if and only if no stamp was stored or one at or after `closesAt`:
  `Timeline.StampIsRightIff`; over a run, a reconcile that finds the Poll open
  repairs it, and nothing else does: `Timeline.StampStaysRightIff`.
* The second clock read of the Poll reconciler can fall after `closesAt` when the
  first fell before it; `ClockDrift.DriftIsHarmlessIff` says exactly when the Poll is
  then left without a wake-up, and `ClockDrift.RestartThenDriftLosesClosing` and
  `ClockDrift.DriftFromCreation` give the steps that lead there.
* `observedPollGeneration` is documented as what tells that a response has to be
  validated again (`api/v1/pollresponse_types.go:127-129`). Closing changes the verdict
  and no generation; exactly when a recorded verdict is out of date in this way is
  `Verdicts.CachedVerdictIsCoherent`.
* Options with white space at an end pass admission but cannot be chosen through
  the form: `Forms.UntrimmedOptionIsLost`.

## Model

| member | source | states |
|---|---|---|
| WakeUps.NoLostWakeUps | internal/controller/poll_controller.go:87-109 | whatever a reconcile would change is queued; the one exception is what closesAt passing has made stale, and then the Poll is queued or has a timer due, its next reconcile writes, and that wakes every such response |
| WakeUps.StepKeepsInv | internal/controller/poll_controller.go:295-320 | every step of users, clock, timers and both reconcilers keeps the wake-up invariant, given the watch wiring |
| WakeUps.RunKeepsInv | internal/controller/pollresponse_controller.go:311-345 | the invariant holds in every state of every run |
| WakeUps.PollOutcome | internal/controller/poll_controller.go:74-109 | one reconcile settles the Poll, writes and raises events exactly when it was unsettled, and sets a timer exactly if the Poll is open with a closesAt: to closesAt, unless an earlier one is pending |
| WakeUps.ResponseOutcome | internal/controller/pollresponse_controller.go:107-112 | one reconcile settles owner and verdict of a response and writes exactly when they were unsettled |
| WakeUps.PollStepWakes | internal/controller/pollresponse_controller.go:324-345 | a step that changes a Poll queues that Poll and the stored responses that refer to it, and no other key; a step that changes nothing queues nothing |
| WakeUps.ResponseStepWakes | internal/controller/poll_controller.go:311-320 | a step that changes a response queues that response and the Poll it refers to, and no other key |
| Quiescence.QuietResults | internal/controller/poll_controller.go:74-85 | with empty queues and no timer due, there is one row per question, in order, its options are the configured ones in their order, and total, responses and votes are the numbers of stored responses that validation accepts now |
| Quiescence.QuietResponse | internal/controller/pollresponse_controller.go:232-287 | then a response has its Poll as owner and records both current generations; it is Accepted, Validated and Counted, with the reason and messages of acceptance, exactly when validation accepts it now, and else shows the reason and message; a missing Poll gives PollNotFound, a closed one PollClosed |
| Quiescence.QuietReady | internal/controller/poll_controller.go:207-228 | then Ready is True with reason Open and its message exactly while the Poll is open, else False with reason Closed and its message, on the current generation |
| Quiescence.QuietNumbersAreExact | internal/controller/poll_controller.go:172-203 | below 2^31 responses those int32 numbers are exact |
| Quiescence.QuietVotesAreConserved | internal/controller/poll_controller.go:184-200 | then the stored votes of a Choice question sum to its responses (single choice) or to between that and that times the options |
| Quiescence.ClosedPollCountsNothing | internal/controller/pollresponse_controller.go:144-149 | after closing, every response ends Rejected(PollClosed) and all results are zero |
| Convergence.EveryScheduleSettles | internal/controller/pollresponse_controller.go:107-112 | the mutual watch loop terminates in every order of reconciles and due timers, after at most (2n + m)(n + m + 1) + queued keys + 2 x due timers steps, and where nothing is left to do the cluster is quiet |
| Convergence.PendingDecreases | internal/controller/poll_controller.go:80-109 | every reconcile lowers 2 x unsettled responses + unsettled Polls, or keeps it and shortens the queues; firing a due timer lowers the backlog too |
| Convergence.WritesAreBounded | internal/controller/poll_controller.go:105-109 | with specs left alone but time passing, timers, resyncs and restarts, a run makes at most 4n + 2m effective reconciles |
| Convergence.PollStatusIsPrivate | internal/controller/pollresponse_controller.go:245-247 | no response's desired status, and no other Poll's, reads a Poll status |
| Convergence.ResponseIsReadByItsPoll | internal/controller/poll_controller.go:74-82 | writing a response can unsettle its own Poll only |
| Convergence.BacklogIsBounded | internal/controller/poll_controller.go:80-109 | for n responses and m Polls the backlog is at most (2n + m)(n + m + 1) + queued keys + 2 x due timers |
| ClockDrift.DriftIsHarmlessIff | internal/controller/poll_controller.go:104-109 | after a reconcile whose second clock read came later, the Poll is still woken for its closing if and only if it was written, both reads fell on one side, or a timer was pending |
| ClockDrift.RestartThenDriftLosesClosing | internal/controller/poll_controller.go:104-109 | in every reachable state with a settled open Poll, a restart followed by such a reconcile leaves the closed Poll showing Open, with neither a queued key nor a timer for it |
| ClockDrift.DriftFromCreation | internal/controller/poll_controller.go:104-109 | from any reachable store: create the Poll, reconcile, restart, reconcile with that drift |
| Timeline.PhaseAndTimestamps | internal/controller/poll_controller.go:116-139 | once reconciled, openedAt is set, the phase is Open or Closed, Closed exactly when closedAt is set, openedAt <= closedAt <= now |
| Timeline.OpenedAtIsFirstReconcile | internal/controller/poll_controller.go:123-136 | openedAt is the clock at the first reconcile after the creation of the Poll, for as long as the Poll lives |
| Timeline.OpenedAtNeverChanges | internal/controller/poll_controller.go:123-136 | openedAt is constant over every run, reopenings included |
| Timeline.PhaseIsDated | internal/controller/poll_controller.go:118-138 | the transition time of Ready is the clock of the reconcile that gave the Poll the phase it shows, and while it is Closed closedAt is that instant too |
| Timeline.PhaseWasSet | internal/controller/poll_controller.go:84-102 | every Poll that shows a phase has had such a reconcile |
| Timeline.TimerIsEarliestClosing | internal/controller/poll_controller.go:104-109 | over every run a Poll has a timer exactly when a reconcile since the last firing or restart found it open with a closesAt, and the timer stands at the earliest of these closing times |
| Timeline.ReconciledPhase | internal/controller/poll_controller.go:116-139 | phase, both timestamps and the whole Ready condition after a reconcile, in terms of those before, the clock and closesAt |
| Timeline.ClosedIsAbsorbing | internal/controller/poll_controller.go:118-130 | while closesAt stays, Closed stays with the same closedAt |
| Timeline.ClosedAtIsNotEarly | internal/controller/poll_controller.go:118-122 | while closesAt stays, a closing recorded meanwhile is not before it |
| Timeline.MovedClosingKeepsOldStamp | internal/controller/poll_controller.go:119-122 | a moved closesAt that passes before the next reconcile leaves closedAt before closesAt |
| Timeline.StampIsRightIff | internal/controller/poll_controller.go:118-122 | after a reconcile of a closed Poll closedAt >= closesAt if and only if there was no closedAt before or one that is not before closesAt |
| Timeline.StampStaysRightIff | internal/controller/poll_controller.go:118-136 | over any stretch of a run with a fixed closesAt, a Closed Poll ends with closedAt >= closesAt if and only if it began with none or such a one, or a reconcile in between found it open |
| Timeline.ClosedPollReopens | internal/controller/poll_controller.go:132-138 | moving closesAt to the future reopens a closed Poll and clears closedAt |
| Timeline.SpecsFormUpdateChain | internal/webhook/v1/poll_webhook.go:67-77 | the specs of a Poll over a run form a chain of admitted updates |
| Verdicts.CachedVerdictIsCoherent | internal/controller/pollresponse_controller.go:232-287 | a response judged on the current generations shows the verdict on today's specs as of its last reconcile, and that is what validateResponse returns now if and only if the Poll did not close in between |
| Verdicts.ShownMeansReconciled | internal/controller/pollresponse_controller.go:232-274 | every response with a status has had such a last reconcile |
| Verdicts.VerdictIsOfNowOrBeforeClosing | internal/controller/pollresponse_controller.go:232-287 | whenever that was: it shows what validateResponse returns now or, once the Poll is closed, returned while it was open |
| Verdicts.ResponseFollowsRecreatedPoll | internal/controller/pollresponse_controller.go:107-131 | when a Poll is created under a name that a response refers to, the response is queued, and its reconcile makes that Poll its owner in place of any earlier one and records the verdict of its spec |
| Verdicts.StatusIsCoherent | internal/controller/pollresponse_controller.go:232-297 | Accepted, acceptedAt, Validated=True and Counted=True go together in every reachable state, each condition once |
| Verdicts.AcceptedAtIsStable | internal/controller/pollresponse_controller.go:236-239 | acceptedAt is constant for as long as the response stays accepted |
| Verdicts.DecisionIsDated | internal/controller/pollresponse_controller.go:236-243 | the transition times of Validated and Counted are the clock of the reconcile that gave the response the phase it shows, and acceptedAt is that instant too |
| Verdicts.PhaseWasDecided | internal/controller/pollresponse_controller.go:232-274 | every response that shows a phase has had such a reconcile |
| Verdicts.GenerationsCountEdits | api/v1/pollresponse_types.go:127-131 | the generations that the statuses record start at 1 and go up by one with each change of a spec |
| Verdicts.NoReachableStatusBlamesAdmission | internal/controller/pollresponse_controller.go:175-207 | no reachable status shows InvalidQuestion, EmptyAnswer or the duplicate-selection message |
| PollStatusLaws.SkippedWriteLosesNothing | internal/controller/poll_controller.go:87-102 | statusEqual says equal exactly when stored and desired status are identical, for every status a run can reach |
| PollStatusLaws.StatusEqualMeans | internal/controller/poll_controller.go:233-264 | on unique keys, statusEqual together with equal option sets is equality up to order and transition times |
| PollStatusLaws.StatusEqualIsNotSymmetric | internal/controller/poll_controller.go:253-261 | without equal option sets it is not even symmetric |
| PollStatusLaws.RowsEqualSameShape | internal/controller/poll_controller.go:243-262 | rows shaped by the same admitted spec compare equal exactly when identical |
| PollController.PollStatusEqual | internal/controller/poll_controller.go:233-264 | the loops with their lookup maps decide the declarative comparison |
| PollController.StatusCopy.ComputePhase | internal/controller/poll_controller.go:116-139 | sets openedAt and closedAt to the stated instants and returns the phase, as in the lifecycle function whose laws Timeline proves |
| PollController.StatusCopy.SetReadyCondition | internal/controller/poll_controller.go:207-228 | sets the one condition of type Ready, whose status, reason and message are those of the phase, on the generation |
| Conditions.ConditionsEqualIgnoringTransition | internal/controller/poll_controller.go:273-292 | decides whether every condition has an equal one of its type on the other side |
| Conditions.MatchAfterSet | internal/controller/poll_controller.go:227-263 | ignoring the transition time loses nothing after one SetStatusCondition |
| Conditions.MatchAfterTwoSets | internal/controller/pollresponse_controller.go:240-247 | nor after two of different types |
| Conditions.SetKeepsTypesDistinct | internal/controller/pollresponse_controller.go:289-297 | setting a condition never duplicates a type |
| Conditions.SetThenFind | internal/controller/pollresponse_controller.go:289-297 | the condition is found as set, dated by its last change of status |
| Tally.AggregateResults | internal/controller/poll_controller.go:144-204 | the version with indices into the result slices gives the rows and total of plain counting, with the questions and options in the order of the spec |
| Tally.IndexResults | internal/controller/poll_controller.go:160-170 | both lookup maps lead to the places of the rows |
| Tally.RowsListQuestions | internal/controller/poll_controller.go:150-159 | the rows stand in the order of the questions, the options of each in the configured order |
| TallyLaws.ResultsOfConcat | internal/controller/poll_controller.go:172-203 | tallying two lists of responses together gives the sums, row by row and in total, of their two tallies |
| TallyLaws.OrderDoesNotMatter | internal/controller/poll_controller.go:74-80 | any permutation of the list gives the same results |
| TallyLaws.CounterBounds | internal/controller/poll_controller.go:172-203 | votes <= responses <= total <= listed responses for admitted responses, whatever the spec is by now |
| TallyLaws.CountersAreExact | internal/controller/poll_controller.go:182-197 | below 2^31 responses the int32 counters are the counts |
| TallyLaws.VotesAreConserved | internal/controller/poll_controller.go:193-199 | votes sum to the selections made, and to the responses for a single choice |
| StoreTally.AggregationIsStoreTally | internal/controller/poll_controller.go:74-82 | aggregating any listing of the store gives, per row, the number of responses in a set |
| StoreTally.TallyDependsOnOwnResponses | internal/controller/poll_controller.go:178-181 | the tally of a Poll depends on the responses that refer to it only |
| PollResponseController.ValidateResponse | internal/controller/pollresponse_controller.go:144-170 | the loop over the answers returns the verdict function, which says PollClosed with closesAt once that has come |
| PollResponseController.ValidateAnswer | internal/controller/pollresponse_controller.go:173-229 | returns the problem of one answer, checked in the order of the code |
| PollResponseController.ValidationIsSoundAndComplete | internal/controller/pollresponse_controller.go:144-170 | nil if and only if the Poll is open and every answer refers to a question and fits it |
| PollResponseController.NoAnswerProblem | internal/controller/pollresponse_controller.go:173-229 | nil if and only if type, distinctness, membership, multiplicity and byte length are right, or the length wraps below the cap, which takes 2^31 bytes |
| PollResponseController.ChoiceErrors | internal/controller/pollresponse_controller.go:175-207 | reason and message of every kind of misfit in an answer to a Choice question, the first selection at fault deciding |
| PollResponseController.OtherErrors | internal/controller/pollresponse_controller.go:209-228 | the same for FreeText questions and unsupported types |
| PollResponseController.ErrorIsOfNamedQuestion | internal/controller/pollresponse_controller.go:151-167 | an answer is judged by the question with its id, and is UnknownQuestion exactly if there is none |
| PollResponseController.FirstProblemIsFirst | internal/controller/pollresponse_controller.go:158-167 | otherwise the error is that of the first answer that has one |
| PollResponseController.FirstBadSelection | internal/controller/pollresponse_controller.go:192-207 | and among selections, of the first that is not configured or repeats an earlier one |
| PollResponseController.SkippedPatchLosesNothing | internal/controller/pollresponse_controller.go:245-274 | when responseStatusEqual says equal, stored and desired status are identical |
| PollResponseController.ResponseStatusEqual | internal/controller/pollresponse_controller.go:301-308 | decides phase, observed generation, acceptedAt and conditions |
| PollResponseController.StatusCopy.Accept | internal/controller/pollresponse_controller.go:232-243 | fills in the status of an accepted response; acceptedAt is kept if set, else now |
| PollResponseController.StatusCopy.Reject | internal/controller/pollresponse_controller.go:262-270 | fills in the status of a rejected response and clears acceptedAt |
| PollResponseController.DesiredShowsVerdict | internal/controller/pollresponse_controller.go:232-270 | that status shows the verdict, both generations and one Validated and one Counted condition |
| PollResponseController.DesiredInFull | internal/controller/pollresponse_controller.go:232-297 | the whole status after accepting or rejecting, with what keeps its date and what gets a new one |
| Manager.Server.ReconcilePoll | internal/controller/poll_controller.go:56-112 | the reconciler with its loops takes exactly the step of the state machine |
| Manager.Server.ReconcileResponse | internal/controller/pollresponse_controller.go:76-113 | so does the other one, owner patch and status patch together |
| Manager.Server.EnsureOwnerReference | internal/controller/pollresponse_controller.go:117-131 | sets the Poll as owner, in place of an earlier Poll of the same name, and writes only if it was not the owner |
| Manager.Server.MapPollToResponses | internal/controller/pollresponse_controller.go:324-345 | lists exactly the responses that refer to the Poll |
| Manager.Server.CreatePoll | internal/webhook/v1/poll_webhook.go:58-64 | admits a Poll exactly when the create step is enabled, and then takes it |
| Manager.Server.UpdatePoll | internal/webhook/v1/poll_webhook.go:67-77 | the same for updates |
| Manager.Server.CreateResponse | internal/webhook/v1/pollresponse_webhook.go:60-66 | the same for new responses |
| Manager.Server.UpdateResponse | internal/webhook/v1/pollresponse_webhook.go:69-87 | the same for changed responses, whose Poll is fixed |
| PollWebhook.ValidatePollSpec | internal/webhook/v1/poll_webhook.go:85-94 | reports every structural error in order, and none exactly for well-formed specs |
| PollWebhook.ValidateChoiceOptions | internal/webhook/v1/poll_webhook.go:137-153 | reports as many errors as there are options beyond the distinct non-empty ones |
| PollWebhook.NoQuestionErrors | internal/webhook/v1/poll_webhook.go:97-133 | no error exactly when the question has the configuration its type calls for |
| PollWebhook.SpecErrorsExactly | internal/webhook/v1/poll_webhook.go:85-133 | the reported errors are exactly the defects of the questions: kind and path of each, and nothing else |
| PollWebhook.SpecErrorsInOrder | internal/webhook/v1/poll_webhook.go:85-94 | they come in the order of the questions |
| PollWebhook.ValidateUpdate | internal/webhook/v1/poll_webhook.go:67-77 | returns exactly the structural errors and the changes of type; none exactly for well-formed specs that keep the types of the questions they share with the old one |
| PollWebhook.NoUpdateErrors | internal/webhook/v1/poll_webhook.go:160-184 | the update check reports nothing exactly when no shared question changes its type |
| PollWebhook.UpdateErrorsExactly | internal/webhook/v1/poll_webhook.go:160-184 | the update check reports Forbidden at the type of exactly the shared questions that change it, in order, once each |
| PollWebhook.TypesAreStable | internal/webhook/v1/poll_webhook.go:155-184 | along any chain of admitted updates that never drops an id, its type is constant |
| PollWebhook.RemovedIdMayChangeType | internal/webhook/v1/poll_webhook.go:169-174 | for every pattern of specs that ask the id, with a gap in it, and any two types there is a chain of admitted updates that changes one type to the other across the gap |
| PollWebhook.TypeIsForcedIff | internal/webhook/v1/poll_webhook.go:155-184 | all chains with a pattern give the id one type at two specs if and only if it is never taken out between them |
| FieldErrors.ErrorsCountExcessEntries | internal/webhook/v1/poll_webhook.go:141-151 | exact number of errors: entries minus distinct non-empty entries |
| FieldErrors.NoEntryErrors | internal/webhook/v1/poll_webhook.go:141-151 | none exactly when entries are non-empty and distinct |
| FieldErrors.ErrorAtEntry | internal/webhook/v1/poll_webhook.go:141-151 | an entry is reported as empty or as duplicate exactly when it is |
| FieldErrors.EntryErrorsExactly | internal/webhook/v1/poll_webhook.go:141-151 | exactly the empty entries are reported as invalid and the repeated ones as duplicates, at their paths |
| FieldErrors.EntryErrorsInOrder | internal/webhook/v1/poll_webhook.go:141-151 | in the order of the entries, one error each at most |
| PollResponseWebhook.ValidatePollResponseSpec | internal/webhook/v1/pollresponse_webhook.go:97-134 | reports every error in order, and none exactly for well-formed responses |
| PollResponseWebhook.AnswerErrorCount | internal/webhook/v1/pollresponse_webhook.go:101-131 | exact number of errors of one answer |
| PollResponseWebhook.SpecErrorsExactly | internal/webhook/v1/pollresponse_webhook.go:97-134 | the reported errors are exactly the defects of the answers: kind and path of each, and nothing else |
| PollResponseWebhook.SpecErrorsInOrder | internal/webhook/v1/pollresponse_webhook.go:97-134 | they come in the order of the answers |
| PollResponseWebhook.ValidateUpdate | internal/webhook/v1/pollresponse_webhook.go:69-87 | returns exactly the structural errors and the change of pollRef; none exactly for well-formed responses that keep it |
| AdmissionLaws.AdmissionMakesBranchesUnreachable | internal/controller/pollresponse_controller.go:173-228 | for admitted objects validation never says InvalidQuestion or EmptyAnswer, nor takes its duplicate branch |
| AdmissionLaws.AcceptedShapeSurvivesUpdates | internal/webhook/v1/poll_webhook.go:160-184 | an answer that fitted once keeps the shape its question asks for along a chain that keeps the question |
| Forms.BuildAnswers | internal/ui/handlers.go:228-270 | the loops give one answer per question that is not left blank, trimmed, or the error when there is none |
| Forms.TextAnswer | internal/ui/handlers.go:251-262 | the answer to a FreeText question is the first submitted value, trimmed, and there is none exactly when that is missing or blank |
| Forms.ChoiceAnswer | internal/ui/handlers.go:235-249 | the answer to a Choice question holds the submitted values that are not blank, trimmed and in order, and there is none exactly when all are blank |
| Forms.FormIsAcceptedIff | internal/ui/handlers.go:228-270 | before closesAt the answers are accepted if and only if every question is left blank or filled in by its rules |
| Forms.FilledInFormIsAdmitted | internal/ui/handlers.go:228-270 | and then they pass admission |
| Forms.FormAnswersInOrder | internal/ui/handlers.go:229-265 | the answers stand in the order of the questions |
| Forms.AnsweredIdsAreDistinct | internal/ui/handlers.go:229-265 | no question is answered twice |
| Forms.ChosenVerbatim | internal/ui/handlers.go:237-243 | choices arrive verbatim exactly when none is blank or has white space at an end |
| Forms.UntrimmedOptionIsLost | internal/ui/handlers.go:237-243 | an option with white space at an end cannot be chosen through the form |
| Forms.TrimStable | internal/ui/handlers.go:237-243 | a value is left alone by trimming exactly when neither end is an encoding of Unicode white space |
| Forms.SpaceIsWhiteSpace | internal/ui/handlers.go:238 | the byte patterns that trimming takes for white space are the UTF-8 encodings of the characters with that Unicode property, and of no other |
| Forms.OuterSpaceIsTrimmed | internal/ui/handlers.go:237-243 | one more white space character at either end makes no difference, whatever the other bytes are |

## Left out

- HTTP handlers other than the form conversion, templates, cookies, server start and `cmd/main.go`: input, output and wiring.
- Informer cache lag, conflicts, failing API calls, retries with backoff, RBAC and leader election: library behaviour; of failed reconciles only the retry is modelled, by the resync step, which may queue any key.
- Objects that are being deleted while a finalizer of somebody else holds them, and garbage collection: a deletion is one step.
- `api/v1/zz_generated.deepcopy.go`: generated; datatypes are values.
- The text of messages and errors: a message is its format string together with the values it shows, a field error is its kind and path.
- The rest of the CRD schema: patterns, length and item limits, defaults.
- Truncation of timestamps to seconds in JSON: an instant is an integer.
- Edits of metadata and of owner references by users, and so a response that some other object than a Poll controls, where setting the owner fails: a change of metadata is covered by the resync step.
- PollResponseController.ValidationIsSoundAndComplete: assumes texts below 2^31 bytes, which the schema guarantees; NoAnswerProblem says what happens beyond.
