/**
 Validation of a response against its Poll, and the status that records the
 outcome: internal/controller/pollresponse_controller.go.
 */
module PollResponseController {
  import opened Model
  import opened Conditions

  // ---------- One answer ----------

  /** The first selection, from `n` on, that is not configured or repeats an earlier one. */
  function SelectionProblem(id: string, options: seq<string>, selected: seq<string>, n: nat): Option<ValidationError>
    requires n <= |selected|
    decreases |selected| - n
  {
    if n == |selected| then None
    else if selected[n] !in options then
      Some(ValidationError(UnknownOption, NotConfigured(id, selected[n])))
    else if selected[n] in selected[..n] then
      Some(ValidationError(TooManyChoices, SelectedTwice(id, selected[n])))
    else SelectionProblem(id, options, selected, n + 1)
  }

  function AnswerProblem(q: Question, a: Answer): Option<ValidationError> {
    match q.qtype
    case Choice =>
      if q.choice == None then Some(ValidationError(InvalidQuestion, NoChoiceConfiguration(q.id)))
      else if a.text != "" then Some(ValidationError(WrongAnswerType, TextMustBeEmpty(q.id)))
      else if a.selectedOptions == [] then Some(ValidationError(EmptyAnswer, NothingSelected(q.id)))
      else if !q.choice.value.allowMultipleChoices && |a.selectedOptions| > 1 then
        Some(ValidationError(TooManyChoices, MultipleNotAllowed(q.id)))
      else SelectionProblem(q.id, q.choice.value.options, a.selectedOptions, 0)
    case FreeText =>
      if a.selectedOptions != [] then Some(ValidationError(WrongAnswerType, SelectionsMustBeEmpty(q.id)))
      else if a.text == "" then Some(ValidationError(EmptyAnswer, NoText(q.id)))
      else if q.freeText.Some? && q.freeText.value.maxResponseLength > 0
              && ToInt32(|a.text|) > q.freeText.value.maxResponseLength then
        Some(ValidationError(TextTooLong, TextExceeds(q.id, q.freeText.value.maxResponseLength)))
      else None
    case UnsupportedType(_) => Some(ValidationError(InvalidQuestion, TypeNotSupported(q.id, q.qtype)))
  }

  method ValidateSelections(id: string, options: seq<string>, selected: seq<string>)
    returns (err: Option<ValidationError>)
    ensures err == SelectionProblem(id, options, selected, 0)
  {
    var allowed: set<string> := {};
    for i := 0 to |options|
      invariant allowed == Elements(options[..i])
    {
      assert options[..i + 1] == options[..i] + [options[i]];
      allowed := allowed + {options[i]};
    }
    assert options[..|options|] == options;
    var seen: set<string> := {};
    for i := 0 to |selected|
      invariant seen == Elements(selected[..i])
      invariant SelectionProblem(id, options, selected, 0) == SelectionProblem(id, options, selected, i)
    {
      var sel := selected[i];
      if sel !in allowed {
        return Some(ValidationError(UnknownOption, NotConfigured(id, sel)));
      }
      if sel in seen {
        return Some(ValidationError(TooManyChoices, SelectedTwice(id, sel)));
      }
      assert selected[..i + 1] == selected[..i] + [sel];
      seen := seen + {sel};
    }
    return None;
  }

  method ValidateAnswer(q: Question, a: Answer) returns (err: Option<ValidationError>)
    ensures err == AnswerProblem(q, a)
  {
    match q.qtype
    case Choice =>
      if q.choice == None {
        return Some(ValidationError(InvalidQuestion, NoChoiceConfiguration(q.id)));
      }
      if a.text != "" {
        return Some(ValidationError(WrongAnswerType, TextMustBeEmpty(q.id)));
      }
      if |a.selectedOptions| == 0 {
        return Some(ValidationError(EmptyAnswer, NothingSelected(q.id)));
      }
      if !q.choice.value.allowMultipleChoices && |a.selectedOptions| > 1 {
        return Some(ValidationError(TooManyChoices, MultipleNotAllowed(q.id)));
      }
      err := ValidateSelections(q.id, q.choice.value.options, a.selectedOptions);
    case FreeText =>
      if |a.selectedOptions| > 0 {
        return Some(ValidationError(WrongAnswerType, SelectionsMustBeEmpty(q.id)));
      }
      if a.text == "" {
        return Some(ValidationError(EmptyAnswer, NoText(q.id)));
      }
      if q.freeText.Some? && q.freeText.value.maxResponseLength > 0
         && ToInt32(|a.text|) > q.freeText.value.maxResponseLength {
        return Some(ValidationError(TextTooLong, TextExceeds(q.id, q.freeText.value.maxResponseLength)));
      }
      err := None;
    case UnsupportedType(_) =>
      err := Some(ValidationError(InvalidQuestion, TypeNotSupported(q.id, q.qtype)));
  }

  // ---------- The whole response ----------

  /** The problem of a single answer, once its question is looked up. */
  function ProblemAt(questions: seq<Question>, a: Answer): Option<ValidationError> {
    var byId := Index(QuestionIds(questions));
    if a.questionID !in byId then Some(ValidationError(UnknownQuestion, NoSuchQuestion(a.questionID)))
    else AnswerProblem(questions[byId[a.questionID]], a)
  }

  function FirstProblem(questions: seq<Question>, answers: seq<Answer>, n: nat): Option<ValidationError>
    requires n <= |answers|
    decreases |answers| - n
  {
    if n == |answers| then None
    else if ProblemAt(questions, answers[n]).Some? then ProblemAt(questions, answers[n])
    else FirstProblem(questions, answers, n + 1)
  }

  /** `closesAt` has come. */
  predicate ClosedAt(spec: PollSpec, now: Time) {
    spec.closesAt.Some? && now >= spec.closesAt.value
  }

  /** What validation returns while the Poll is closed, or open. */
  function Verdict(spec: PollSpec, answers: seq<Answer>, closed: bool): Option<ValidationError> {
    if closed && spec.closesAt.Some? then Some(ValidationError(PollIsClosed, ClosedSince(spec.closesAt.value)))
    else FirstProblem(spec.questions, answers, 0)
  }

  method ValidateResponse(spec: PollSpec, response: ResponseSpec, now: Time) returns (err: Option<ValidationError>)
    ensures err == Verdict(spec, response.answers, ClosedAt(spec, now))
    ensures spec.closesAt.Some? && now >= spec.closesAt.value ==>
              err == Some(ValidationError(PollIsClosed, ClosedSince(spec.closesAt.value)))
  {
    if spec.closesAt.Some? && !(now < spec.closesAt.value) {
      return Some(ValidationError(PollIsClosed, ClosedSince(spec.closesAt.value)));
    }
    var byId := IndexQuestions(spec.questions);
    hide AnswerProblem;
    var answers := response.answers;
    for i := 0 to |answers|
      invariant FirstProblem(spec.questions, answers, 0) == FirstProblem(spec.questions, answers, i)
    {
      if answers[i].questionID !in byId {
        return Some(ValidationError(UnknownQuestion, NoSuchQuestion(answers[i].questionID)));
      }
      err := ValidateAnswer(spec.questions[byId[answers[i].questionID]], answers[i]);
      if err.Some? {
        return err;
      }
    }
    return None;
  }

  // ---------- Soundness and completeness ----------

  /** The rules an answer has to follow, stated without the order in which the code checks them. */
  ghost predicate AnswerFits(q: Question, a: Answer) {
    match q.qtype
    case Choice =>
      && q.choice.Some?
      && a.text == "" && a.selectedOptions != []
      && Distinct(a.selectedOptions)
      && (forall o | o in a.selectedOptions :: o in q.choice.value.options)
      && (q.choice.value.allowMultipleChoices || |a.selectedOptions| == 1)
    case FreeText =>
      && a.selectedOptions == [] && a.text != ""
      && (q.freeText.Some? && q.freeText.value.maxResponseLength > 0 ==>
          |a.text| <= q.freeText.value.maxResponseLength)
    case UnsupportedType(_) => false
  }

  lemma {:induction false} NoSelectionProblem(id: string, options: seq<string>, selected: seq<string>, n: nat)
    requires n <= |selected|
    requires Distinct(selected[..n])
    requires forall o | o in selected[..n] :: o in options
    ensures SelectionProblem(id, options, selected, n) == None
       <==> Distinct(selected) && forall o | o in selected :: o in options
    decreases |selected| - n
  {
    if n == |selected| {
      assert selected[..n] == selected;
    } else {
      assert selected[..n + 1] == selected[..n] + [selected[n]];
      if selected[n] in options && selected[n] !in selected[..n] {
        NoSelectionProblem(id, options, selected, n + 1);
      }
    }
  }

  /** The first selection at fault decides: everything before it is configured and distinct. */
  lemma {:induction false} FirstBadSelection(id: string, options: seq<string>, selected: seq<string>, n: nat)
    requires n <= |selected|
    requires Distinct(selected[..n])
    requires forall o | o in selected[..n] :: o in options
    ensures SelectionProblem(id, options, selected, n).Some? ==>
              exists k | n <= k < |selected| ::
                && Distinct(selected[..k]) && (forall o | o in selected[..k] :: o in options)
                && var problem := SelectionProblem(id, options, selected, n).value;
                   if selected[k] !in options
                   then problem == ValidationError(UnknownOption, NotConfigured(id, selected[k]))
                   else selected[k] in selected[..k]
                        && problem == ValidationError(TooManyChoices, SelectedTwice(id, selected[k]))
    decreases |selected| - n
  {
    if n < |selected| && selected[n] in options && selected[n] !in selected[..n] {
      assert selected[..n + 1] == selected[..n] + [selected[n]];
      FirstBadSelection(id, options, selected, n + 1);
    }
  }

  /** The length of the text, once converted to int32, is within a cap that the length itself exceeds. */
  predicate LengthWrapsBelowCap(q: Question, a: Answer) {
    && q.qtype == FreeText && a.selectedOptions == []
    && q.freeText.Some? && 0 < q.freeText.value.maxResponseLength < |a.text|
    && ToInt32(|a.text|) <= q.freeText.value.maxResponseLength
  }

  /**
   `validateAnswer` returns nil exactly for the answers that follow the rules,
   and for texts whose length wraps around; the schema keeps those out.
   */
  lemma NoAnswerProblem(q: Question, a: Answer)
    ensures AnswerProblem(q, a) == None <==> AnswerFits(q, a) || LengthWrapsBelowCap(q, a)
    ensures LengthWrapsBelowCap(q, a) ==> |a.text| >= 0x8000_0000
  {
    if q.qtype == Choice && q.choice.Some? {
      NoSelectionProblem(q.id, q.choice.value.options, a.selectedOptions, 0);
    }
  }

  // ---------- Which error it is ----------

  /** The selection at `k` is at fault, and none before it is. */
  ghost predicate FirstAtFault(options: seq<string>, selected: seq<string>, k: nat) {
    && k < |selected|
    && Distinct(selected[..k]) && (forall o | o in selected[..k] :: o in options)
    && (selected[k] !in options || selected[k] in selected[..k])
  }

  lemma {:induction false} FirstAtFaultDecides(id: string, options: seq<string>, selected: seq<string>, n: nat, k: nat)
    requires n <= k && FirstAtFault(options, selected, k)
    ensures SelectionProblem(id, options, selected, n) ==
            Some(if selected[k] !in options then ValidationError(UnknownOption, NotConfigured(id, selected[k]))
                 else ValidationError(TooManyChoices, SelectedTwice(id, selected[k])))
    decreases k - n
  {
    if n < k {
      assert selected[..k][n] == selected[n];
      assert forall i | 0 <= i < n :: selected[..k][i] == selected[i];
      FirstAtFaultDecides(id, options, selected, n + 1, k);
    }
  }

  /** The error of every kind of misfit in an answer to a Choice question. */
  lemma ChoiceErrors(q: Question, a: Answer)
    requires q.qtype == Choice
    ensures q.choice.None? ==>
              AnswerProblem(q, a) == Some(ValidationError(InvalidQuestion, NoChoiceConfiguration(q.id)))
    ensures q.choice.Some? && a.text != "" ==>
              AnswerProblem(q, a) == Some(ValidationError(WrongAnswerType, TextMustBeEmpty(q.id)))
    ensures q.choice.Some? && a.text == "" && a.selectedOptions == [] ==>
              AnswerProblem(q, a) == Some(ValidationError(EmptyAnswer, NothingSelected(q.id)))
    ensures q.choice.Some? && a.text == "" && |a.selectedOptions| > 1 && !q.choice.value.allowMultipleChoices ==>
              AnswerProblem(q, a) == Some(ValidationError(TooManyChoices, MultipleNotAllowed(q.id)))
    ensures q.choice.Some? && a.text == "" && (|a.selectedOptions| == 1 || q.choice.value.allowMultipleChoices) ==>
              forall k: nat | FirstAtFault(q.choice.value.options, a.selectedOptions, k) ::
                var o := a.selectedOptions[k];
                AnswerProblem(q, a) ==
                Some(if o !in q.choice.value.options then ValidationError(UnknownOption, NotConfigured(q.id, o))
                     else ValidationError(TooManyChoices, SelectedTwice(q.id, o)))
  {
    if q.choice.Some? {
      var options := q.choice.value.options;
      forall k: nat | FirstAtFault(options, a.selectedOptions, k)
        ensures var o := a.selectedOptions[k];
                SelectionProblem(q.id, options, a.selectedOptions, 0) ==
                Some(if o !in options then ValidationError(UnknownOption, NotConfigured(q.id, o))
                     else ValidationError(TooManyChoices, SelectedTwice(q.id, o)))
      {
        FirstAtFaultDecides(q.id, options, a.selectedOptions, 0, k);
      }
      hide FirstAtFault, SelectionProblem;
    }
  }

  /** The same for the other types of question; a text is too long by its int32 length. */
  lemma OtherErrors(q: Question, a: Answer)
    requires q.qtype != Choice
    ensures q.qtype != FreeText ==>
              AnswerProblem(q, a) == Some(ValidationError(InvalidQuestion, TypeNotSupported(q.id, q.qtype)))
    ensures q.qtype == FreeText && a.selectedOptions != [] ==>
              AnswerProblem(q, a) == Some(ValidationError(WrongAnswerType, SelectionsMustBeEmpty(q.id)))
    ensures q.qtype == FreeText && a.selectedOptions == [] && a.text == "" ==>
              AnswerProblem(q, a) == Some(ValidationError(EmptyAnswer, NoText(q.id)))
    ensures q.qtype == FreeText && a.selectedOptions == [] && |a.text| < 0x8000_0000
            && q.freeText.Some? && 0 < q.freeText.value.maxResponseLength < |a.text| ==>
              AnswerProblem(q, a) ==
              Some(ValidationError(TextTooLong, TextExceeds(q.id, q.freeText.value.maxResponseLength)))
  {
  }

  /** An answer is judged by the question it names, and by none it does not name. */
  lemma ErrorIsOfNamedQuestion(questions: seq<Question>, a: Answer)
    requires Distinct(QuestionIds(questions))
    ensures (forall i | 0 <= i < |questions| :: questions[i].id != a.questionID) ==>
              ProblemAt(questions, a) == Some(ValidationError(UnknownQuestion, NoSuchQuestion(a.questionID)))
    ensures forall i | 0 <= i < |questions| && questions[i].id == a.questionID ::
              ProblemAt(questions, a) == AnswerProblem(questions[i], a)
  {
    hide AnswerProblem;
    var ids := QuestionIds(questions);
    assert forall j | 0 <= j < |ids| :: ids[j] == questions[j].id;
    forall i | 0 <= i < |questions| && questions[i].id == a.questionID
      ensures ProblemAt(questions, a) == AnswerProblem(questions[i], a)
    {
      IndexOfDistinct(ids, i);
    }
  }

  // ---------- Answers against a whole spec ----------

  /** The answer refers to a question of the spec and follows its rules. */
  ghost predicate AnswerOk(questions: seq<Question>, a: Answer) {
    exists i | 0 <= i < |questions| :: questions[i].id == a.questionID && AnswerFits(questions[i], a)
  }

  lemma NoProblemAt(questions: seq<Question>, a: Answer)
    requires Distinct(QuestionIds(questions)) && |a.text| < 0x8000_0000
    ensures ProblemAt(questions, a) == None <==> AnswerOk(questions, a)
  {
    var ids := QuestionIds(questions);
    hide AnswerProblem, AnswerFits;
    assert forall j | 0 <= j < |ids| :: ids[j] == questions[j].id;
    if a.questionID in ids {
      var i := Index(ids)[a.questionID];
      NoAnswerProblem(questions[i], a);
      assert forall j | 0 <= j < |ids| && ids[j] == a.questionID :: j == i;
    }
  }

  /** The first problem is the problem of the first answer that has one. */
  lemma {:induction false} FirstProblemIsFirst(questions: seq<Question>, answers: seq<Answer>, n: nat)
    requires n <= |answers|
    ensures FirstProblem(questions, answers, n) == None
       <==> forall k | n <= k < |answers| :: ProblemAt(questions, answers[k]) == None
    ensures FirstProblem(questions, answers, n).Some? ==>
              exists k | n <= k < |answers| ::
                && FirstProblem(questions, answers, n) == ProblemAt(questions, answers[k])
                && forall j | n <= j < k :: ProblemAt(questions, answers[j]) == None
    decreases |answers| - n
  {
    hide ProblemAt;
    if n < |answers| {
      FirstProblemIsFirst(questions, answers, n + 1);
    }
  }

  /** `validateResponse` returns nil exactly when the Poll is open and every answer fits its question. */
  lemma ValidationIsSoundAndComplete(spec: PollSpec, answers: seq<Answer>, now: Time)
    requires Distinct(QuestionIds(spec.questions))
    requires forall k | 0 <= k < |answers| :: |answers[k].text| < 0x8000_0000
    ensures Verdict(spec, answers, ClosedAt(spec, now)) == None
       <==> && (spec.closesAt.None? || now < spec.closesAt.value)
            && forall k | 0 <= k < |answers| :: AnswerOk(spec.questions, answers[k])
  {
    FirstProblemIsFirst(spec.questions, answers, 0);
    forall k | 0 <= k < |answers|
      ensures ProblemAt(spec.questions, answers[k]) == None <==> AnswerOk(spec.questions, answers[k])
    {
      NoProblemAt(spec.questions, answers[k]);
    }
  }

  // ---------- The status of a response ----------

  /** The status `reject` or `accept` aims at, given what it is now. */
  function DesiredStatus(stored: ResponseStatus, verdict: Option<ValidationError>, pollGeneration: nat,
                         generation: nat, now: Time): ResponseStatus
  {
    var s := if verdict.None? then ConditionTrue else ConditionFalse;
    var reason := if verdict.None? then Accepted else verdict.value.reason;
    var validated := Condition(Validated, s, reason,
      if verdict.None? then PassedValidation else verdict.value.message, generation, now);
    var counted := Condition(Counted, s, reason,
      if verdict.None? then IncludedInResults else RejectedNotCounted, generation, now);
    ResponseStatus(
      SetStatusCondition(SetStatusCondition(stored.conditions, validated), counted),
      if verdict.None? then ResponseAccepted else ResponseRejected,
      pollGeneration,
      if verdict.Some? then None else if stored.acceptedAt.None? then Some(now) else stored.acceptedAt)
  }

  predicate StatusEqual(a: ResponseStatus, b: ResponseStatus) {
    && a.phase == b.phase
    && a.observedPollGeneration == b.observedPollGeneration
    && a.acceptedAt == b.acceptedAt
    && ConditionsMatch(a.conditions, b.conditions)
  }

  method ResponseStatusEqual(a: ResponseStatus, b: ResponseStatus) returns (eq: bool)
    ensures eq == StatusEqual(a, b)
  {
    var sameTime := TimePtrEqual(a.acceptedAt, b.acceptedAt);
    if a.phase != b.phase || a.observedPollGeneration != b.observedPollGeneration || !sameTime {
      return false;
    }
    eq := ConditionsEqualIgnoringTransition(a.conditions, b.conditions);
  }

  /** The working copy of a status that `accept` and `reject` fill in field by field. */
  class StatusCopy {
    var conditions: seq<Condition>
    var phase: ResponsePhase
    var observedPollGeneration: nat
    var acceptedAt: Option<Time>

    function Value(): ResponseStatus
      reads this
    {
      ResponseStatus(conditions, phase, observedPollGeneration, acceptedAt)
    }

    constructor DeepCopy(status: ResponseStatus)
      ensures Value() == status
    {
      conditions, phase := status.conditions, status.phase;
      observedPollGeneration, acceptedAt := status.observedPollGeneration, status.acceptedAt;
    }

    method SetCondition(t: ConditionType, s: ConditionStatus, reason: Reason, message: Message,
                        generation: nat, now: Time)
      modifies this`conditions
      ensures conditions == SetStatusCondition(old(conditions), Condition(t, s, reason, message, generation, now))
    {
      conditions := SetStatusCondition(conditions, Condition(t, s, reason, message, generation, now));
    }

    method Accept(pollGeneration: nat, generation: nat, now: Time)
      modifies this
      ensures Value() == DesiredStatus(old(Value()), None, pollGeneration, generation, now)
      ensures phase == ResponseAccepted && observedPollGeneration == pollGeneration
      ensures acceptedAt == if old(acceptedAt).Some? then old(acceptedAt) else Some(now)
    {
      phase := ResponseAccepted;
      observedPollGeneration := pollGeneration;
      if acceptedAt == None {
        acceptedAt := Some(now);
      }
      SetCondition(Validated, ConditionTrue, Accepted, PassedValidation, generation, now);
      SetCondition(Counted, ConditionTrue, Accepted, IncludedInResults, generation, now);
    }

    method Reject(pollGeneration: nat, generation: nat, err: ValidationError, now: Time)
      modifies this
      ensures Value() == DesiredStatus(old(Value()), Some(err), pollGeneration, generation, now)
      ensures phase == ResponseRejected && observedPollGeneration == pollGeneration && acceptedAt == None
    {
      phase := ResponseRejected;
      observedPollGeneration := pollGeneration;
      acceptedAt := None;
      SetCondition(Validated, ConditionFalse, err.reason, err.message, generation, now);
      SetCondition(Counted, ConditionFalse, err.reason, RejectedNotCounted, generation, now);
    }
  }

  /** A skipped patch loses nothing: whenever the comparison says equal, stored and desired are identical. */
  lemma SkippedPatchLosesNothing(stored: ResponseStatus, verdict: Option<ValidationError>, pollGeneration: nat,
                                 generation: nat, now: Time)
    requires Distinct(ConditionTypes(stored.conditions))
    requires StatusEqual(stored, DesiredStatus(stored, verdict, pollGeneration, generation, now))
    ensures DesiredStatus(stored, verdict, pollGeneration, generation, now) == stored
  {
    var s := if verdict.None? then ConditionTrue else ConditionFalse;
    var reason := if verdict.None? then Accepted else verdict.value.reason;
    MatchAfterTwoSets(stored.conditions,
      Condition(Validated, s, reason,
                if verdict.None? then PassedValidation else verdict.value.message, generation, now),
      Condition(Counted, s, reason, if verdict.None? then IncludedInResults else RejectedNotCounted, generation, now));
  }

  // ---------- What a stored status shows ----------

  /** The status records `verdict`, reached on these generations of the Poll and of the response. */
  ghost predicate Shows(status: ResponseStatus, verdict: Option<ValidationError>,
                        pollGeneration: nat, generation: nat)
  {
    var s := if verdict.None? then ConditionTrue else ConditionFalse;
    var reason := if verdict.None? then Accepted else verdict.value.reason;
    && |status.conditions| == 2
    && status.conditions[0] == Condition(Validated, s, reason,
         if verdict.None? then PassedValidation else verdict.value.message, generation,
         status.conditions[0].lastTransitionTime)
    && status.conditions[1] == Condition(Counted, s, reason,
         if verdict.None? then IncludedInResults else RejectedNotCounted, generation,
         status.conditions[1].lastTransitionTime)
    && status.phase == (if verdict.None? then ResponseAccepted else ResponseRejected)
    && status.observedPollGeneration == pollGeneration
    && (status.acceptedAt.Some? <==> verdict.None?)
  }

  ghost function RecordedVerdict(status: ResponseStatus): Option<ValidationError>
    requires status.conditions != []
  {
    if status.phase == ResponseAccepted then None
    else Some(ValidationError(status.conditions[0].reason, status.conditions[0].message))
  }

  /** Never reconciled, or showing one coherent verdict. */
  ghost predicate Coherent(status: ResponseStatus) {
    || status == EMPTY_RESPONSE_STATUS
    || (|status.conditions| == 2
        && Shows(status, RecordedVerdict(status),
                 status.observedPollGeneration, status.conditions[0].observedGeneration))
  }

  lemma DesiredShowsVerdict(stored: ResponseStatus, verdict: Option<ValidationError>, pollGeneration: nat,
                            generation: nat, now: Time)
    requires Coherent(stored)
    ensures Shows(DesiredStatus(stored, verdict, pollGeneration, generation, now), verdict, pollGeneration, generation)
  {
  }

  /** When the condition at `i` last changed its status. */
  ghost function ConditionSince(status: ResponseStatus, i: nat): Time {
    if i < |status.conditions| then status.conditions[i].lastTransitionTime else 0
  }

  /**
   The whole status that accepting or rejecting leaves behind. What is dated keeps
   its date as long as the outcome stays the same, and else gets the time of now.
   */
  lemma DesiredInFull(stored: ResponseStatus, verdict: Option<ValidationError>, pollGeneration: nat,
                      generation: nat, now: Time)
    requires Coherent(stored)
    ensures var desired := DesiredStatus(stored, verdict, pollGeneration, generation, now);
            match verdict
            case None =>
              var same := stored.phase == ResponseAccepted;
              desired == ResponseStatus(
                [Condition(Validated, ConditionTrue, Accepted, PassedValidation, generation,
                           if same then ConditionSince(stored, 0) else now),
                 Condition(Counted, ConditionTrue, Accepted, IncludedInResults, generation,
                           if same then ConditionSince(stored, 1) else now)],
                ResponseAccepted, pollGeneration, if same then stored.acceptedAt else Some(now))
            case Some(err) =>
              var same := stored.phase == ResponseRejected;
              desired == ResponseStatus(
                [Condition(Validated, ConditionFalse, err.reason, err.message, generation,
                           if same then ConditionSince(stored, 0) else now),
                 Condition(Counted, ConditionFalse, err.reason, RejectedNotCounted, generation,
                           if same then ConditionSince(stored, 1) else now)],
                ResponseRejected, pollGeneration, None)
  {
  }

  lemma ShowsIsCoherent(status: ResponseStatus, verdict: Option<ValidationError>, pollGeneration: nat, generation: nat)
    requires Shows(status, verdict, pollGeneration, generation)
    ensures Coherent(status) && RecordedVerdict(status) == verdict
    ensures status != EMPTY_RESPONSE_STATUS
  {
  }

  lemma CoherentTypes(status: ResponseStatus)
    requires Coherent(status)
    ensures Distinct(ConditionTypes(status.conditions))
  {
  }

  /** A status that shows the verdict is what the reconciler aims at, whatever the time, and is not written again. */
  lemma ShownIsFixpoint(stored: ResponseStatus, verdict: Option<ValidationError>, pollGeneration: nat,
                        generation: nat, now: Time)
    requires Shows(stored, verdict, pollGeneration, generation)
    ensures DesiredStatus(stored, verdict, pollGeneration, generation, now) == stored
    ensures StatusEqual(stored, stored)
  {
    var desired := DesiredStatus(stored, verdict, pollGeneration, generation, now);
    assert desired.conditions == stored.conditions;
    MatchesItself(stored.conditions);
  }
}
