/**
 The objects of the polls.jef.app/v1 API: Poll, PollResponse, and the status
 conditions both of them carry.

 Go strings are byte strings: every `char` of a Dafny `string` stands for one
 byte. Objects are keyed by name in the maps that hold them, so they do not
 repeat their name.
 */
module Model {
  datatype Option<+T> = None | Some(value: T)

  /** An instant, `metav1.Time`. */
  type Time = int

  /** Go's `int32`, the type of all the counters and of the text cap. */
  type Int32 = n: int | -0x8000_0000 <= n < 0x8000_0000

  /** The conversion of an integer to `int32`: it wraps around. */
  function ToInt32(n: int): Int32 {
    (n + 0x8000_0000) % 0x1_0000_0000 - 0x8000_0000
  }

  lemma WrapOnceOrTwice(x: int, y: int)
    ensures ToInt32(ToInt32(x) + y) == ToInt32(x + y)
  {
  }

  // ---------- Poll ----------

  datatype QuestionType = Choice | FreeText | UnsupportedType(name: string)

  datatype ChoiceQuestion = ChoiceQuestion(options: seq<string>, allowMultipleChoices: bool)

  datatype FreeTextQuestion = FreeTextQuestion(maxResponseLength: Int32)

  datatype Question = Question(
    id: string,
    prompt: string,
    qtype: QuestionType,
    choice: Option<ChoiceQuestion>,
    freeText: Option<FreeTextQuestion>)

  datatype PollSpec = PollSpec(title: string, questions: seq<Question>, closesAt: Option<Time>)

  datatype PollPhase = NoPollPhase | PollPending | PollOpen | PollClosed

  datatype OptionResult = OptionResult(option: string, votes: Int32)

  datatype QuestionResult = QuestionResult(questionID: string, options: seq<OptionResult>, responses: Int32)

  datatype PollStatus = PollStatus(
    conditions: seq<Condition>,
    phase: PollPhase,
    openedAt: Option<Time>,
    closedAt: Option<Time>,
    results: seq<QuestionResult>,
    totalResponses: Int32)

  const EMPTY_POLL_STATUS := PollStatus([], NoPollPhase, None, None, [], 0)

  datatype Poll = Poll(uid: nat, spec: PollSpec, generation: nat, status: PollStatus)

  // ---------- PollResponse ----------

  datatype Answer = Answer(questionID: string, selectedOptions: seq<string>, text: string)

  datatype ResponseSpec = ResponseSpec(
    pollRef: string,
    respondent: string,
    answers: seq<Answer>,
    submittedAt: Option<Time>)

  datatype ResponsePhase = NoResponsePhase | ResponsePending | ResponseAccepted | ResponseRejected

  datatype ResponseStatus = ResponseStatus(
    conditions: seq<Condition>,
    phase: ResponsePhase,
    observedPollGeneration: nat,
    acceptedAt: Option<Time>)

  const EMPTY_RESPONSE_STATUS := ResponseStatus([], NoResponsePhase, 0, None)

  /** `owner` is the uid of the controller owner reference, if there is one. */
  datatype PollResponse = PollResponse(
    spec: ResponseSpec,
    generation: nat,
    owner: Option<nat>,
    status: ResponseStatus)

  // ---------- Conditions ----------

  datatype ConditionType = Ready | Validated | Counted | OtherCondition(name: string)

  datatype ConditionStatus = ConditionTrue | ConditionFalse | ConditionUnknown

  datatype Condition = Condition(
    ctype: ConditionType,
    status: ConditionStatus,
    reason: Reason,
    message: Message,
    observedGeneration: nat,
    lastTransitionTime: Time)

  datatype Reason =
    | ReasonOpen | ReasonClosed | ReasonPending
    | Accepted | PollNotFound | PollIsClosed | UnknownQuestion | WrongAnswerType | UnknownOption
    | EmptyAnswer | TooManyChoices | TextTooLong | InvalidQuestion

  /** A message is the format string it comes from together with the values it shows. */
  datatype Message =
    | AcceptingResponses | NoLongerAccepting | NotYetOpened
    | PassedValidation | IncludedInResults | RejectedNotCounted
    | NoSuchPoll(poll: string)
    | ClosedSince(closesAt: Time)
    | NoSuchQuestion(questionID: string)
    | NoChoiceConfiguration(questionID: string)
    | TextMustBeEmpty(questionID: string)
    | NothingSelected(questionID: string)
    | MultipleNotAllowed(questionID: string)
    | NotConfigured(questionID: string, option: string)
    | SelectedTwice(questionID: string, option: string)
    | SelectionsMustBeEmpty(questionID: string)
    | NoText(questionID: string)
    | TextExceeds(questionID: string, cap: Int32)
    | TypeNotSupported(questionID: string, qtype: QuestionType)

  datatype ValidationError = ValidationError(reason: Reason, message: Message)

  // ---------- Keys ----------

  function QuestionIds(questions: seq<Question>): (ids: seq<string>)
    ensures |ids| == |questions|
  {
    seq(|questions|, i requires 0 <= i < |questions| => questions[i].id)
  }

  function AnswerIds(answers: seq<Answer>): (ids: seq<string>)
    ensures |ids| == |answers|
  {
    seq(|answers|, i requires 0 <= i < |answers| => answers[i].questionID)
  }

  function ResultIds(results: seq<QuestionResult>): (ids: seq<string>)
    ensures |ids| == |results|
  {
    seq(|results|, i requires 0 <= i < |results| => results[i].questionID)
  }

  function OptionNames(options: seq<OptionResult>): (names: seq<string>)
    ensures |names| == |options|
  {
    seq(|options|, i requires 0 <= i < |options| => options[i].option)
  }

  function ConditionTypes(conditions: seq<Condition>): (types: seq<ConditionType>)
    ensures |types| == |conditions|
  {
    seq(|conditions|, i requires 0 <= i < |conditions| => conditions[i].ctype)
  }

  /** No entry occurs twice. */
  ghost predicate Distinct<T>(s: seq<T>) {
    forall i, j | 0 <= i < j < |s| :: s[i] != s[j]
  }

  lemma NoneIsDistinct<T>()
    ensures Distinct<T>([])
  {
  }

  lemma DistinctSnoc<T>(s: seq<T>, x: T)
    ensures Distinct(s + [x]) <==> Distinct(s) && x !in s
  {
    assert forall i | 0 <= i < |s| :: (s + [x])[i] == s[i];
    if Distinct(s + [x]) {
      assert (s + [x])[|s|] == x;
    }
  }

  /** The elements of a sequence. */
  function Elements<T(==)>(s: seq<T>): set<T> {
    set x | x in s
  }

  /**
   What a loop `for i := range keys { m[keys[i]] = i }` leaves in `m`: every key
   leads to the last place where it stands.
   */
  function Index<K(==,!new)>(keys: seq<K>): (m: map<K, nat>)
    ensures forall k :: k in m <==> k in keys
    ensures forall k | k in m :: m[k] < |keys| && keys[m[k]] == k
  {
    if keys == [] then map[]
    else
      var n := |keys| - 1;
      assert keys == keys[..n] + [keys[n]];
      Index(keys[..n])[keys[n] := n]
  }

  lemma IndexOfDistinct<K(!new)>(keys: seq<K>, i: nat)
    requires Distinct(keys) && i < |keys|
    ensures keys[i] in Index(keys) && Index(keys)[keys[i]] == i
  {
  }

  lemma IndexStep<K(!new)>(keys: seq<K>, n: nat)
    requires n < |keys|
    ensures Index(keys[..n + 1]) == Index(keys[..n])[keys[n] := n]
  {
    assert keys[..n + 1][..n] == keys[..n];
  }

  /** Questions by id, as positions in the list; a later question replaces an earlier one with its id. */
  method IndexQuestions(questions: seq<Question>) returns (byId: map<string, nat>)
    ensures byId == Index(QuestionIds(questions))
  {
    var ids := QuestionIds(questions);
    byId := map[];
    for i := 0 to |questions|
      invariant byId == Index(ids[..i])
    {
      IndexStep(ids, i);
      byId := byId[questions[i].id := i];
    }
    assert ids[..|questions|] == ids;
  }

  lemma DistinctCardinality<T>(s: seq<T>)
    requires Distinct(s)
    ensures |Elements(s)| == |s|
  {
    if s != [] {
      var n := |s| - 1;
      DistinctCardinality(s[..n]);
      assert Elements(s) == Elements(s[..n]) + {s[n]};
    }
  }

  /** A set inside another of the same size is that set. */
  lemma SubsetOfSameSize<T>(a: set<T>, b: set<T>)
    requires a <= b && |a| == |b|
    ensures a == b
  {
    if x :| x in b && x !in a {
      SubsetSize(a, b - {x});
    }
  }

  lemma SubsetSize<T>(a: set<T>, b: set<T>)
    requires a <= b
    ensures |a| <= |b|
  {
    if a != {} {
      var x :| x in a;
      SubsetSize(a - {x}, b - {x});
    }
  }
}
