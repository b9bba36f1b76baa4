/** Admission of Polls: internal/webhook/v1/poll_webhook.go. */
module PollWebhook {
  import opened Model
  import opened FieldErrors

  const QUESTIONS: Path := [Child("spec"), Child("questions")]

  // ---------- One question ----------

  method ValidateChoiceOptions(c: ChoiceQuestion, p: Path) returns (errs: seq<FieldError>)
    ensures errs == EntryErrors(c.options, |c.options|, p + [Child("options")])
    ensures |errs| == |c.options| - |NonEmpty(c.options)|
  {
    errs := [];
    var optsPath := p + [Child("options")];
    var seen: set<string> := {};
    for i := 0 to |c.options|
      invariant errs == EntryErrors(c.options, i, optsPath)
      invariant seen == NonEmpty(c.options[..i])
    {
      var opt := c.options[i];
      assert c.options[..i + 1] == c.options[..i] + [opt];
      if opt == "" {
        errs := errs + [FieldError(Invalid, optsPath + [At(i)])];
        continue;
      }
      if opt in seen {
        errs := errs + [FieldError(Duplicate, optsPath + [At(i)])];
      }
      seen := seen + {opt};
    }
    assert c.options[..|c.options|] == c.options;
    ErrorsCountExcessEntries(c.options, |c.options|, optsPath);
  }

  function QuestionErrors(q: Question, p: Path): seq<FieldError> {
    match q.qtype
    case Choice =>
      (if q.choice == None then [FieldError(Required, p + [Child("choice")])]
       else EntryErrors(q.choice.value.options, |q.choice.value.options|,
                        p + [Child("choice")] + [Child("options")]))
      + (if q.freeText != None then [FieldError(Forbidden, p + [Child("freeText")])] else [])
    case FreeText =>
      (if q.freeText == None then [FieldError(Required, p + [Child("freeText")])] else [])
      + (if q.choice != None then [FieldError(Forbidden, p + [Child("choice")])] else [])
    case UnsupportedType(_) => [FieldError(NotSupported, p + [Child("type")])]
  }

  method ValidateQuestion(q: Question, p: Path) returns (errs: seq<FieldError>)
    ensures errs == QuestionErrors(q, p)
  {
    errs := [];
    match q.qtype
    case Choice =>
      if q.choice == None {
        errs := errs + [FieldError(Required, p + [Child("choice")])];
      } else {
        var e := ValidateChoiceOptions(q.choice.value, p + [Child("choice")]);
        errs := errs + e;
      }
      if q.freeText != None {
        errs := errs + [FieldError(Forbidden, p + [Child("freeText")])];
      }
    case FreeText =>
      if q.freeText == None {
        errs := errs + [FieldError(Required, p + [Child("freeText")])];
      }
      if q.choice != None {
        errs := errs + [FieldError(Forbidden, p + [Child("choice")])];
      }
    case UnsupportedType(_) =>
      errs := errs + [FieldError(NotSupported, p + [Child("type")])];
  }

  // ---------- The whole spec ----------

  function SpecErrors(questions: seq<Question>, n: nat): seq<FieldError>
    requires n <= |questions|
  {
    if n == 0 then []
    else SpecErrors(questions, n - 1) + QuestionErrors(questions[n - 1], QUESTIONS + [At(n - 1)])
  }

  method ValidatePollSpec(spec: PollSpec) returns (errs: seq<FieldError>)
    ensures errs == SpecErrors(spec.questions, |spec.questions|)
    ensures errs == [] <==> WellFormedPoll(spec)
  {
    hide WellFormedQuestion, QuestionErrors;
    errs := [];
    for i := 0 to |spec.questions|
      invariant errs == SpecErrors(spec.questions, i)
    {
      var e := ValidateQuestion(spec.questions[i], QUESTIONS + [At(i)]);
      errs := errs + e;
    }
    NoSpecErrors(spec.questions, |spec.questions|);
  }

  /** What the structural rules are for: every question has exactly the configuration its type calls for. */
  ghost predicate WellFormedQuestion(q: Question) {
    match q.qtype
    case Choice =>
      && q.choice.Some? && q.freeText.None?
      && "" !in q.choice.value.options && Distinct(q.choice.value.options)
    case FreeText => q.freeText.Some? && q.choice.None?
    case UnsupportedType(_) => false
  }

  ghost predicate WellFormedPoll(spec: PollSpec) {
    forall i | 0 <= i < |spec.questions| :: WellFormedQuestion(spec.questions[i])
  }

  lemma NoQuestionErrors(q: Question, p: Path)
    ensures QuestionErrors(q, p) == [] <==> WellFormedQuestion(q)
  {
    if q.choice.Some? {
      var opts := q.choice.value.options;
      NoEntryErrors(opts, |opts|, p + [Child("choice")] + [Child("options")]);
      assert opts[..|opts|] == opts;
    }
  }

  lemma {:induction false} NoSpecErrors(questions: seq<Question>, n: nat)
    requires n <= |questions|
    ensures SpecErrors(questions, n) == [] <==> forall i | 0 <= i < n :: WellFormedQuestion(questions[i])
  {
    hide WellFormedQuestion, QuestionErrors;
    if n > 0 {
      NoSpecErrors(questions, n - 1);
      NoQuestionErrors(questions[n - 1], QUESTIONS + [At(n - 1)]);
    }
  }

  // ---------- Which errors they are ----------

  /** What is wrong with a question: the kind of error, and the path below the question that it is reported at. */
  ghost predicate QuestionDefect(q: Question, kind: ErrorKind, at: Path) {
    match q.qtype
    case Choice =>
      || (q.choice.None? && kind == Required && at == [Child("choice")])
      || (q.choice.Some?
          && exists i | 0 <= i < |q.choice.value.options| ::
               at == [Child("choice"), Child("options"), At(i)] && EntryDefect(q.choice.value.options, i, kind))
      || (q.freeText.Some? && kind == Forbidden && at == [Child("freeText")])
    case FreeText =>
      || (q.freeText.None? && kind == Required && at == [Child("freeText")])
      || (q.choice.Some? && kind == Forbidden && at == [Child("choice")])
    case UnsupportedType(_) => kind == NotSupported && at == [Child("type")]
  }

  /** Every defect of a question is reported at its path, and nothing else is. */
  lemma QuestionErrorsExactly(q: Question, p: Path, e: FieldError)
    ensures e in QuestionErrors(q, p) <==> p <= e.path && QuestionDefect(q, e.kind, e.path[|p|..])
  {
    if q.qtype == Choice && q.choice.Some? {
      OptionErrorsExactly(q.choice.value.options, p, e);
    }
    PathBelow(p, [Child("choice")], e.path);
    PathBelow(p, [Child("freeText")], e.path);
    PathBelow(p, [Child("type")], e.path);
    hide EntryErrors, EntryDefect;
  }

  lemma PathBelow(p: Path, at: Path, path: Path)
    ensures path == p + at <==> p <= path && path[|p|..] == at
  {
  }

  lemma OptionErrorsExactly(options: seq<string>, p: Path, e: FieldError)
    ensures e in EntryErrors(options, |options|, p + [Child("choice")] + [Child("options")]) <==>
            && p <= e.path
            && exists i | 0 <= i < |options| ::
                 e.path[|p|..] == [Child("choice"), Child("options"), At(i)] && EntryDefect(options, i, e.kind)
  {
    hide *;
    EntryErrorsExactly(options, |options|, p + [Child("choice")] + [Child("options")], e);
    forall i: nat
      ensures e.path == p + [Child("choice")] + [Child("options")] + [At(i)] <==>
              p <= e.path && e.path[|p|..] == [Child("choice"), Child("options"), At(i)]
    {
      OptionPath(p, i, e.path);
    }
  }

  lemma OptionPath(p: Path, i: nat, path: Path)
    ensures path == p + [Child("choice")] + [Child("options")] + [At(i)] <==>
            p <= path && path[|p|..] == [Child("choice"), Child("options"), At(i)]
  {
    PathBelow(p, [Child("choice"), Child("options"), At(i)], path);
    assert p + [Child("choice")] + [Child("options")] + [At(i)] == p + [Child("choice"), Child("options"), At(i)];
  }

  /** In a Choice question misplaced free text is reported last, in a FreeText question missing free text first. */
  lemma QuestionErrorOrder(q: Question, p: Path)
    ensures q.qtype == Choice && q.freeText.Some? ==>
              var errs := QuestionErrors(q, p);
              errs != [] && errs[|errs| - 1] == FieldError(Forbidden, p + [Child("freeText")])
    ensures q.qtype == FreeText && q.freeText.None? ==>
              QuestionErrors(q, p) != [] && QuestionErrors(q, p)[0] == FieldError(Required, p + [Child("freeText")])
  {
  }

  /** The error is about a defect of one of the first `n` questions, at its place in the object. */
  ghost predicate SpecDefect(questions: seq<Question>, n: nat, e: FieldError)
    requires n <= |questions|
  {
    exists i | 0 <= i < n ::
      [Child("spec"), Child("questions"), At(i)] <= e.path && QuestionDefect(questions[i], e.kind, e.path[3..])
  }

  lemma SpecDefectStep(questions: seq<Question>, n: nat, e: FieldError)
    requires 0 < n <= |questions|
    ensures SpecDefect(questions, n, e) <==>
            || SpecDefect(questions, n - 1, e)
            || ([Child("spec"), Child("questions"), At(n - 1)] <= e.path
                && QuestionDefect(questions[n - 1], e.kind, e.path[3..]))
  {
    hide QuestionDefect;
  }

  lemma {:induction false} SpecErrorsExactly(questions: seq<Question>, n: nat, e: FieldError)
    requires n <= |questions|
    ensures e in SpecErrors(questions, n) <==> SpecDefect(questions, n, e)
  {
    hide QuestionErrors, QuestionDefect, SpecDefect;
    if n == 0 {
      NoSpecDefect(questions, e);
    } else {
      SpecErrorsExactly(questions, n - 1, e);
      SpecDefectStep(questions, n, e);
      assert QUESTIONS + [At(n - 1)] == [Child("spec"), Child("questions"), At(n - 1)];
      QuestionErrorsExactly(questions[n - 1], QUESTIONS + [At(n - 1)], e);
    }
  }

  lemma NoSpecDefect(questions: seq<Question>, e: FieldError)
    ensures !SpecDefect(questions, 0, e)
  {
  }

  /** The errors come in the order of the questions. */
  lemma {:induction false} SpecErrorsInOrder(questions: seq<Question>, n: nat)
    requires n <= |questions|
    ensures Rising(SpecErrors(questions, n), 2)
    ensures forall e | e in SpecErrors(questions, n) :: 2 < |e.path| && e.path[2].At? && e.path[2].index < n
  {
    hide QuestionErrors, Rising;
    if n == 0 {
      NothingRises(2);
    }
    if n > 0 {
      SpecErrorsInOrder(questions, n - 1);
      var p := QUESTIONS + [At(n - 1)];
      ErrorsBelowQuestion(questions[n - 1], n - 1);
      RisingConcat(SpecErrors(questions, n - 1), QuestionErrors(questions[n - 1], p), 2, n - 1);
    }
  }

  lemma ErrorsBelowQuestion(q: Question, i: nat)
    ensures forall e | e in QuestionErrors(q, QUESTIONS + [At(i)]) :: 2 < |e.path| && e.path[2] == At(i)
  {
    hide QuestionErrors, QuestionDefect;
    var p := QUESTIONS + [At(i)];
    forall e | e in QuestionErrors(q, p) ensures 2 < |e.path| && e.path[2] == At(i) {
      QuestionErrorsExactly(q, p, e);
      assert e.path[..3] == p;
    }
  }

  // ---------- Updates ----------

  /** The error of a question whose id exists in the old spec with another type. */
  function UpdateError(oldQuestions: seq<Question>, q: Question, path: Path): seq<FieldError> {
    var oldById := Index(QuestionIds(oldQuestions));
    if q.id in oldById && oldQuestions[oldById[q.id]].qtype != q.qtype
    then [FieldError(Forbidden, path + [Child("type")])] else []
  }

  function UpdateErrors(oldQuestions: seq<Question>, newQuestions: seq<Question>, n: nat): seq<FieldError>
    requires n <= |newQuestions|
  {
    if n == 0 then []
    else
      UpdateErrors(oldQuestions, newQuestions, n - 1)
      + UpdateError(oldQuestions, newQuestions[n - 1], QUESTIONS + [At(n - 1)])
  }

  method ValidatePollUpdate(oldSpec: PollSpec, newSpec: PollSpec) returns (errs: seq<FieldError>)
    ensures errs == UpdateErrors(oldSpec.questions, newSpec.questions, |newSpec.questions|)
  {
    errs := [];
    var oldById := IndexQuestions(oldSpec.questions);
    for i := 0 to |newSpec.questions|
      invariant errs == UpdateErrors(oldSpec.questions, newSpec.questions, i)
    {
      var q := newSpec.questions[i];
      if q.id !in oldById {
        continue;
      }
      if oldSpec.questions[oldById[q.id]].qtype != q.qtype {
        errs := errs + [FieldError(Forbidden, QUESTIONS + [At(i)] + [Child("type")])];
      }
    }
  }

  /** Ids are unique within a Poll: the list is a map keyed by id in the schema. */
  ghost predicate UniqueIds(spec: PollSpec) {
    Distinct(QuestionIds(spec.questions))
  }

  /** A spec the API server stores: schema and admission both let it through. */
  ghost predicate AdmittedPoll(spec: PollSpec) {
    UniqueIds(spec) && WellFormedPoll(spec)
  }

  /** The old questions with `q`'s id have its type. */
  ghost predicate KeepsType(oldQuestions: seq<Question>, q: Question) {
    forall i | 0 <= i < |oldQuestions| :: oldQuestions[i].id == q.id ==> oldQuestions[i].qtype == q.qtype
  }

  /** No question that both specs have changes its type. */
  ghost predicate KeepsTypes(oldSpec: PollSpec, newSpec: PollSpec) {
    forall j | 0 <= j < |newSpec.questions| :: KeepsType(oldSpec.questions, newSpec.questions[j])
  }

  lemma NoUpdateError(oldQuestions: seq<Question>, q: Question, path: Path)
    requires Distinct(QuestionIds(oldQuestions))
    ensures UpdateError(oldQuestions, q, path) == [] <==> KeepsType(oldQuestions, q)
  {
    var ids := QuestionIds(oldQuestions);
    assert forall i | 0 <= i < |ids| :: ids[i] == oldQuestions[i].id;
    if q.id in ids {
      var k := Index(ids)[q.id];
      assert oldQuestions[k].id == q.id;
    }
  }

  lemma {:induction false} NoUpdateErrors(oldQuestions: seq<Question>, newQuestions: seq<Question>, n: nat)
    requires n <= |newQuestions| && Distinct(QuestionIds(oldQuestions))
    ensures UpdateErrors(oldQuestions, newQuestions, n) == []
       <==> forall j | 0 <= j < n :: KeepsType(oldQuestions, newQuestions[j])
  {
    hide KeepsType, UpdateError, Distinct;
    if n > 0 {
      NoUpdateErrors(oldQuestions, newQuestions, n - 1);
      NoUpdateError(oldQuestions, newQuestions[n - 1], QUESTIONS + [At(n - 1)]);
    }
  }

  /** The error is about a changed type of one of the first `n` questions. */
  ghost predicate UpdateDefect(oldQuestions: seq<Question>, newQuestions: seq<Question>, n: nat, e: FieldError)
    requires n <= |newQuestions|
  {
    exists i | 0 <= i < n ::
      && !KeepsType(oldQuestions, newQuestions[i])
      && e == FieldError(Forbidden, [Child("spec"), Child("questions"), At(i), Child("type")])
  }

  /** Every change of a type is reported once, in order, and nothing else is. */
  lemma {:induction false} UpdateErrorsExactly(oldQuestions: seq<Question>, newQuestions: seq<Question>, n: nat)
    requires n <= |newQuestions| && Distinct(QuestionIds(oldQuestions))
    ensures forall e :: e in UpdateErrors(oldQuestions, newQuestions, n) <==>
                        UpdateDefect(oldQuestions, newQuestions, n, e)
    ensures Ascending(UpdateErrors(oldQuestions, newQuestions, n), 2, n)
  {
    hide KeepsType, Distinct, UpdateError, Ascending;
    if n == 0 {
      NothingAscends(2);
    } else {
      UpdateErrorsExactly(oldQuestions, newQuestions, n - 1);
      OneUpdateError(oldQuestions, newQuestions, n - 1);
      AscendingOrNot(UpdateErrors(oldQuestions, newQuestions, n - 1), 2, n - 1,
                     UpdateError(oldQuestions, newQuestions[n - 1], QUESTIONS + [At(n - 1)]));
    }
  }

  lemma OneUpdateError(oldQuestions: seq<Question>, newQuestions: seq<Question>, i: nat)
    requires i < |newQuestions| && Distinct(QuestionIds(oldQuestions))
    ensures var path := [Child("spec"), Child("questions"), At(i), Child("type")];
            UpdateError(oldQuestions, newQuestions[i], QUESTIONS + [At(i)]) ==
            if KeepsType(oldQuestions, newQuestions[i]) then [] else [FieldError(Forbidden, path)]
  {
    hide KeepsType, Distinct;
    var p := QUESTIONS + [At(i)];
    NoUpdateError(oldQuestions, newQuestions[i], p);
    assert p + [Child("type")] == [Child("spec"), Child("questions"), At(i), Child("type")];
  }

  /** The errors of the error list, if any, make the API server refuse the object. */
  method ValidateCreate(spec: PollSpec) returns (errs: seq<FieldError>)
    ensures errs == [] <==> WellFormedPoll(spec)
    ensures forall e :: e in errs <==> SpecDefect(spec.questions, |spec.questions|, e)
  {
    hide WellFormedPoll, SpecErrors, SpecDefect;
    errs := ValidatePollSpec(spec);
    forall e ensures e in errs <==> SpecDefect(spec.questions, |spec.questions|, e) {
      SpecErrorsExactly(spec.questions, |spec.questions|, e);
    }
  }

  method ValidateUpdate(oldSpec: PollSpec, newSpec: PollSpec) returns (errs: seq<FieldError>)
    requires UniqueIds(oldSpec)
    ensures errs == [] <==> WellFormedPoll(newSpec) && KeepsTypes(oldSpec, newSpec)
    ensures forall e :: e in errs <==>
                        || SpecDefect(newSpec.questions, |newSpec.questions|, e)
                        || UpdateDefect(oldSpec.questions, newSpec.questions, |newSpec.questions|, e)
  {
    hide WellFormedPoll, SpecErrors, SpecDefect, UpdateErrors, UpdateDefect, KeepsType, Ascending;
    errs := ValidatePollSpec(newSpec);
    forall e ensures e in errs <==> SpecDefect(newSpec.questions, |newSpec.questions|, e) {
      SpecErrorsExactly(newSpec.questions, |newSpec.questions|, e);
    }
    var more := ValidatePollUpdate(oldSpec, newSpec);
    NoUpdateErrors(oldSpec.questions, newSpec.questions, |newSpec.questions|);
    UpdateErrorsExactly(oldSpec.questions, newSpec.questions, |newSpec.questions|);
    errs := errs + more;
  }

  // ---------- Chains of updates ----------

  ghost predicate UpdateChain(specs: seq<PollSpec>) {
    && (forall k | 0 <= k < |specs| :: AdmittedPoll(specs[k]))
    && (forall k | 0 <= k < |specs| - 1 :: KeepsTypes(specs[k], specs[k + 1]))
  }

  ghost predicate HasQuestion(spec: PollSpec, id: string) {
    exists i | 0 <= i < |spec.questions| :: spec.questions[i].id == id
  }

  ghost function TypeOf(spec: PollSpec, id: string): QuestionType
    requires HasQuestion(spec, id)
  {
    var i :| 0 <= i < |spec.questions| && spec.questions[i].id == id;
    spec.questions[i].qtype
  }

  /** As long as an id is never taken out, its question keeps its type along the whole chain. */
  lemma {:induction false} TypesAreStable(specs: seq<PollSpec>, id: string, j: nat, k: nat)
    requires UpdateChain(specs) && j <= k < |specs|
    requires forall m | j <= m <= k :: HasQuestion(specs[m], id)
    ensures TypeOf(specs[j], id) == TypeOf(specs[k], id)
    decreases k
  {
    if j < k {
      TypesAreStable(specs, id, j, k - 1);
      assert KeepsTypes(specs[k - 1], specs[k - 1 + 1]);
      hide AdmittedPoll;
    }
  }

  lemma SingleQuestion(q: Question)
    requires WellFormedQuestion(q)
    ensures var spec := PollSpec("Poll", [q], None);
            AdmittedPoll(spec) && HasQuestion(spec, q.id) && TypeOf(spec, q.id) == q.qtype
  {
    var spec := PollSpec("Poll", [q], None);
    assert spec.questions[0].id == q.id;
  }

  /** The id is asked in exactly these specs of the chain. */
  ghost predicate HasPattern(specs: seq<PollSpec>, id: string, present: seq<bool>) {
    |specs| == |present| && forall i | 0 <= i < |specs| :: HasQuestion(specs[i], id) <==> present[i]
  }

  /** `before` where the id is asked ahead of the gap at `m`, `after` where it is asked later, `other` elsewhere. */
  ghost function GapChain(before: Question, other: Question, after: Question, present: seq<bool>, m: nat)
    : (specs: seq<PollSpec>)
    ensures |specs| == |present|
  {
    seq(|present|, i requires 0 <= i < |present| =>
      PollSpec("Poll", [if !present[i] then other else if i < m then before else after], None))
  }

  /**
   Taking an id out and putting it back escapes the rule, wherever else it is
   asked: each update looks at its predecessor only.
   */
  lemma RemovedIdMayChangeType(before: Question, other: Question, after: Question, present: seq<bool>, m: nat)
    requires WellFormedQuestion(before) && WellFormedQuestion(other) && WellFormedQuestion(after)
    requires before.id == after.id != other.id
    requires m < |present| && !present[m]
    ensures var specs := GapChain(before, other, after, present, m);
            && UpdateChain(specs) && HasPattern(specs, before.id, present)
            && forall i | 0 <= i < |specs| && present[i] ::
                 TypeOf(specs[i], before.id) == if i < m then before.qtype else after.qtype
  {
    var specs := GapChain(before, other, after, present, m);
    forall i | 0 <= i < |specs|
      ensures AdmittedPoll(specs[i]) && (HasQuestion(specs[i], before.id) <==> present[i])
      ensures present[i] ==> TypeOf(specs[i], before.id) == if i < m then before.qtype else after.qtype
    {
      SingleQuestion(specs[i].questions[0]);
    }
    hide AdmittedPoll;
    forall i | 0 <= i < |specs| - 1 ensures KeepsTypes(specs[i], specs[i + 1]) {
      assert specs[i].questions[0].id == specs[i + 1].questions[0].id ==>
          specs[i].questions[0] == specs[i + 1].questions[0];
    }
  }

  /** All chains of admitted updates that ask the id in these specs give it one type at `j` and `k`. */
  ghost predicate TypeIsForced(id: string, present: seq<bool>, j: nat, k: nat)
    requires j < |present| && k < |present| && present[j] && present[k]
  {
    forall specs | UpdateChain(specs) && HasPattern(specs, id, present) :: TypeOf(specs[j], id) == TypeOf(specs[k], id)
  }

  /** The update rule pins the type down exactly when the id was never taken out in between. */
  lemma TypeIsForcedIff(id: string, present: seq<bool>, j: nat, k: nat)
    requires j <= k < |present| && present[j] && present[k]
    ensures TypeIsForced(id, present, j, k) <==> forall m | j <= m <= k :: present[m]
  {
    hide UpdateChain, HasQuestion, TypeOf;
    if m :| j <= m <= k && !present[m] {
      var before := Question(id, "Why?", FreeText, None, Some(FreeTextQuestion(1000)));
      var after := Question(id, "Agreed?", Choice, Some(ChoiceQuestion(["yes", "no"], false)), None);
      var other := before.(id := if id == "a" then "b" else "a");
      RemovedIdMayChangeType(before, other, after, present, m);
      assert !TypeIsForced(id, present, j, k);
    } else {
      forall specs | UpdateChain(specs) && HasPattern(specs, id, present)
        ensures TypeOf(specs[j], id) == TypeOf(specs[k], id)
      {
        TypesAreStable(specs, id, j, k);
      }
    }
  }
}
