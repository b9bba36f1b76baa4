/** What admission guarantees to the controllers. */
module AdmissionLaws {
  import opened Model
  import opened PollWebhook
  import opened PollResponseWebhook
  import opened PollResponseController

  /** A verdict that only objects which escaped admission can get. */
  ghost predicate NeedsBadObject(err: ValidationError) {
    err.reason == InvalidQuestion || err.reason == EmptyAnswer || err.message.SelectedTwice?
  }

  /** Distinct selections never reach the duplicate branch. */
  lemma {:induction false} NoDuplicateSelection(id: string, options: seq<string>, selected: seq<string>, n: nat)
    requires n <= |selected| && Distinct(selected)
    ensures SelectionProblem(id, options, selected, n).Some? ==>
              SelectionProblem(id, options, selected, n).value.reason == UnknownOption
              && SelectionProblem(id, options, selected, n).value.message.NotConfigured?
    decreases |selected| - n
  {
    if n < |selected| {
      NoDuplicateSelection(id, options, selected, n + 1);
    }
  }

  lemma AdmittedAnswerProblem(q: Question, a: Answer)
    requires WellFormedQuestion(q) && WellFormedAnswer(a)
    ensures AnswerProblem(q, a).Some? ==> !NeedsBadObject(AnswerProblem(q, a).value)
  {
    if q.qtype == Choice {
      NoDuplicateSelection(q.id, q.choice.value.options, a.selectedOptions, 0);
    }
  }

  lemma {:induction false} AdmittedFirstProblem(questions: seq<Question>, answers: seq<Answer>, n: nat)
    requires n <= |answers|
    requires forall i | 0 <= i < |questions| :: WellFormedQuestion(questions[i])
    requires forall i | 0 <= i < |answers| :: WellFormedAnswer(answers[i])
    ensures FirstProblem(questions, answers, n).Some? ==> !NeedsBadObject(FirstProblem(questions, answers, n).value)
    decreases |answers| - n
  {
    hide WellFormedQuestion, WellFormedAnswer, AnswerProblem;
    if n < |answers| {
      var byId := Index(QuestionIds(questions));
      if answers[n].questionID in byId {
        AdmittedAnswerProblem(questions[byId[answers[n].questionID]], answers[n]);
      }
      AdmittedFirstProblem(questions, answers, n + 1);
    }
  }

  /**
   For an admitted Poll and an admitted response, validation never answers
   InvalidQuestion or EmptyAnswer, nor takes its duplicate-selection branch.
   */
  lemma AdmissionMakesBranchesUnreachable(poll: PollSpec, response: ResponseSpec, closed: bool)
    requires AdmittedPoll(poll) && AdmittedResponse(response)
    ensures var verdict := Verdict(poll, response.answers, closed);
            verdict.Some? ==> !NeedsBadObject(verdict.value)
  {
    AdmittedFirstProblem(poll.questions, response.answers, 0);
  }

  // ---------- Answers outlive edits of the spec ----------

  /** The answer has the shape that questions of this type ask for. */
  ghost predicate HasShape(qtype: QuestionType, a: Answer) {
    match qtype
    case Choice => a.text == "" && a.selectedOptions != []
    case FreeText => a.text != "" && a.selectedOptions == []
    case UnsupportedType(_) => false
  }

  lemma TypeOfQuestion(spec: PollSpec, i: nat)
    requires UniqueIds(spec) && i < |spec.questions|
    ensures HasQuestion(spec, spec.questions[i].id) && TypeOf(spec, spec.questions[i].id) == spec.questions[i].qtype
  {
    var ids := QuestionIds(spec.questions);
    assert ids[i] == spec.questions[i].id;
    forall k | 0 <= k < |spec.questions| && spec.questions[k].id == spec.questions[i].id ensures k == i {
      assert ids[k] == ids[i];
    }
  }

  /**
   An answer that fitted its question at some point of a chain of admitted
   updates still has the right shape at any later point, as long as its question
   was there all along: it can no longer be rejected as WrongAnswerType or
   EmptyAnswer.
   */
  lemma AcceptedShapeSurvivesUpdates(specs: seq<PollSpec>, j: nat, k: nat, i: nat, m: nat, a: Answer)
    requires UpdateChain(specs) && j <= k < |specs|
    requires i < |specs[j].questions| && m < |specs[k].questions|
    requires specs[j].questions[i].id == a.questionID == specs[k].questions[m].id
    requires forall x | j <= x <= k :: HasQuestion(specs[x], a.questionID)
    requires AnswerFits(specs[j].questions[i], a)
    ensures HasShape(specs[k].questions[m].qtype, a)
    ensures AnswerProblem(specs[k].questions[m], a).Some? ==>
              AnswerProblem(specs[k].questions[m], a).value.reason !in {WrongAnswerType, EmptyAnswer, InvalidQuestion}
  {
    assert AdmittedPoll(specs[j]) && AdmittedPoll(specs[k]);
    assert WellFormedQuestion(specs[k].questions[m]);
    TypesAreStable(specs, a.questionID, j, k);
    TypeOfQuestion(specs[j], i);
    TypeOfQuestion(specs[k], m);
    hide UpdateChain, AdmittedPoll, TypeOf, HasQuestion;
    var q := specs[k].questions[m];
    if q.qtype == Choice {
      SelectionReasons(q.id, q.choice.value.options, a.selectedOptions, 0);
    }
  }

  lemma {:induction false} SelectionReasons(id: string, options: seq<string>, selected: seq<string>, n: nat)
    requires n <= |selected|
    ensures SelectionProblem(id, options, selected, n).Some? ==>
              SelectionProblem(id, options, selected, n).value.reason in {UnknownOption, TooManyChoices}
    decreases |selected| - n
  {
    if n < |selected| {
      SelectionReasons(id, options, selected, n + 1);
    }
  }
}
