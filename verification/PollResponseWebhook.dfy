/** Admission of PollResponses: internal/webhook/v1/pollresponse_webhook.go. */
module PollResponseWebhook {
  import opened Model
  import opened FieldErrors

  const ANSWERS: Path := [Child("spec"), Child("answers")]

  function AnswerErrors(a: Answer, p: Path): seq<FieldError> {
    (if a.selectedOptions != [] && a.text != "" then [FieldError(Invalid, p)]
     else if a.selectedOptions == [] && a.text == "" then [FieldError(Required, p)]
     else [])
    + EntryErrors(a.selectedOptions, |a.selectedOptions|, p + [Child("selectedOptions")])
  }

  function SpecErrors(answers: seq<Answer>, n: nat): seq<FieldError>
    requires n <= |answers|
  {
    if n == 0 then []
    else SpecErrors(answers, n - 1) + AnswerErrors(answers[n - 1], ANSWERS + [At(n - 1)])
  }

  method ValidateSelections(selected: seq<string>, path: Path) returns (errs: seq<FieldError>)
    ensures errs == EntryErrors(selected, |selected|, path)
    ensures |errs| == |selected| - |NonEmpty(selected)|
  {
    errs := [];
    var seen: set<string> := {};
    for j := 0 to |selected|
      invariant errs == EntryErrors(selected, j, path)
      invariant seen == NonEmpty(selected[..j])
    {
      var sel := selected[j];
      assert selected[..j + 1] == selected[..j] + [sel];
      if sel == "" {
        errs := errs + [FieldError(Invalid, path + [At(j)])];
        continue;
      }
      if sel in seen {
        errs := errs + [FieldError(Duplicate, path + [At(j)])];
      }
      seen := seen + {sel};
    }
    assert selected[..|selected|] == selected;
    ErrorsCountExcessEntries(selected, |selected|, path);
  }

  /** The body of the loop over the answers. */
  method ValidateAnswer(a: Answer, p: Path) returns (errs: seq<FieldError>)
    ensures errs == AnswerErrors(a, p)
  {
    var hasSelections, hasText := |a.selectedOptions| > 0, a.text != "";
    errs := [];
    if hasSelections && hasText {
      errs := [FieldError(Invalid, p)];
    } else if !hasSelections && !hasText {
      errs := [FieldError(Required, p)];
    }
    if hasSelections {
      var e := ValidateSelections(a.selectedOptions, p + [Child("selectedOptions")]);
      errs := errs + e;
    }
  }

  method ValidatePollResponseSpec(spec: ResponseSpec) returns (errs: seq<FieldError>)
    ensures errs == SpecErrors(spec.answers, |spec.answers|)
    ensures errs == [] <==> WellFormedResponse(spec)
  {
    hide WellFormedAnswer, AnswerErrors;
    errs := [];
    for i := 0 to |spec.answers|
      invariant errs == SpecErrors(spec.answers, i)
    {
      var e := ValidateAnswer(spec.answers[i], ANSWERS + [At(i)]);
      errs := errs + e;
    }
    NoSpecErrors(spec.answers, |spec.answers|);
  }

  /** An answer is either text or a non-empty list of distinct non-empty selections. */
  ghost predicate WellFormedAnswer(a: Answer) {
    && (a.selectedOptions == [] <==> a.text != "")
    && "" !in a.selectedOptions && Distinct(a.selectedOptions)
  }

  ghost predicate WellFormedResponse(spec: ResponseSpec) {
    forall i | 0 <= i < |spec.answers| :: WellFormedAnswer(spec.answers[i])
  }

  /**
   What the schema adds: one answer per question id, a named Poll, and a bound
   on the text (10000 characters, so at most four times as many bytes).
   */
  ghost predicate SchemaResponse(spec: ResponseSpec) {
    && Distinct(AnswerIds(spec.answers))
    && spec.pollRef != ""
    && forall i | 0 <= i < |spec.answers| :: |spec.answers[i].text| <= 40_000
  }

  /** A spec the API server stores. */
  ghost predicate AdmittedResponse(spec: ResponseSpec) {
    SchemaResponse(spec) && WellFormedResponse(spec)
  }

  /** The selections alone add as many errors as there are entries beyond the distinct non-empty ones. */
  lemma AnswerErrorCount(a: Answer, p: Path)
    ensures |AnswerErrors(a, p)| ==
            (if a.selectedOptions == [] <==> a.text != "" then 0 else 1)
            + |a.selectedOptions| - |NonEmpty(a.selectedOptions)|
  {
    var sel := a.selectedOptions;
    ErrorsCountExcessEntries(sel, |sel|, p + [Child("selectedOptions")]);
    assert sel[..|sel|] == sel;
  }

  lemma NoAnswerErrors(a: Answer, p: Path)
    ensures AnswerErrors(a, p) == [] <==> WellFormedAnswer(a)
  {
    var sel := a.selectedOptions;
    NoEntryErrors(sel, |sel|, p + [Child("selectedOptions")]);
    assert sel[..|sel|] == sel;
  }

  lemma {:induction false} NoSpecErrors(answers: seq<Answer>, n: nat)
    requires n <= |answers|
    ensures SpecErrors(answers, n) == [] <==> forall i | 0 <= i < n :: WellFormedAnswer(answers[i])
  {
    hide WellFormedAnswer, AnswerErrors;
    if n > 0 {
      NoSpecErrors(answers, n - 1);
      NoAnswerErrors(answers[n - 1], ANSWERS + [At(n - 1)]);
    }
  }

  // ---------- Which errors they are ----------

  /** What is wrong with an answer: the kind of error, and the path below the answer that it is reported at. */
  ghost predicate AnswerDefect(a: Answer, kind: ErrorKind, at: Path) {
    || (a.selectedOptions != [] && a.text != "" && kind == Invalid && at == [])
    || (a.selectedOptions == [] && a.text == "" && kind == Required && at == [])
    || exists j | 0 <= j < |a.selectedOptions| ::
         at == [Child("selectedOptions"), At(j)] && EntryDefect(a.selectedOptions, j, kind)
  }

  /** Every defect of an answer is reported at its path, and nothing else is; that of the answer itself comes first. */
  lemma AnswerErrorsExactly(a: Answer, p: Path, e: FieldError)
    ensures e in AnswerErrors(a, p) <==> p <= e.path && AnswerDefect(a, e.kind, e.path[|p|..])
    ensures (a.selectedOptions == [] <==> a.text == "") ==> AnswerErrors(a, p) != [] && AnswerErrors(a, p)[0].path == p
  {
    var selected := a.selectedOptions;
    EntryErrorsExactly(selected, |selected|, p + [Child("selectedOptions")], e);
    forall j: nat
      ensures e.path == p + [Child("selectedOptions")] + [At(j)] <==>
              p <= e.path && e.path[|p|..] == [Child("selectedOptions"), At(j)]
    {
      assert p + [Child("selectedOptions")] + [At(j)] == p + [Child("selectedOptions"), At(j)];
    }
    assert e.path == p <==> p <= e.path && e.path[|p|..] == [];
    hide EntryErrors, EntryDefect;
  }

  /** The error is about a defect of one of the first `n` answers, at its place in the object. */
  ghost predicate SpecDefect(answers: seq<Answer>, n: nat, e: FieldError)
    requires n <= |answers|
  {
    exists i | 0 <= i < n ::
      [Child("spec"), Child("answers"), At(i)] <= e.path && AnswerDefect(answers[i], e.kind, e.path[3..])
  }

  lemma {:induction false} SpecErrorsExactly(answers: seq<Answer>, n: nat, e: FieldError)
    requires n <= |answers|
    ensures e in SpecErrors(answers, n) <==> SpecDefect(answers, n, e)
  {
    hide AnswerErrors, AnswerDefect;
    if n > 0 {
      SpecErrorsExactly(answers, n - 1, e);
      assert ANSWERS + [At(n - 1)] == [Child("spec"), Child("answers"), At(n - 1)];
      AnswerErrorsExactly(answers[n - 1], ANSWERS + [At(n - 1)], e);
    }
  }

  /** The errors come in the order of the answers. */
  lemma {:induction false} SpecErrorsInOrder(answers: seq<Answer>, n: nat)
    requires n <= |answers|
    ensures Rising(SpecErrors(answers, n), 2)
    ensures forall e | e in SpecErrors(answers, n) :: 2 < |e.path| && e.path[2].At? && e.path[2].index < n
  {
    hide AnswerErrors, Rising;
    if n == 0 {
      NothingRises(2);
    }
    if n > 0 {
      SpecErrorsInOrder(answers, n - 1);
      ErrorsBelowAnswer(answers[n - 1], n - 1);
      RisingConcat(SpecErrors(answers, n - 1), AnswerErrors(answers[n - 1], ANSWERS + [At(n - 1)]), 2, n - 1);
    }
  }

  lemma ErrorsBelowAnswer(a: Answer, i: nat)
    ensures forall e | e in AnswerErrors(a, ANSWERS + [At(i)]) :: 2 < |e.path| && e.path[2] == At(i)
  {
    hide AnswerErrors, AnswerDefect;
    var p := ANSWERS + [At(i)];
    forall e | e in AnswerErrors(a, p) ensures 2 < |e.path| && e.path[2] == At(i) {
      AnswerErrorsExactly(a, p, e);
      assert e.path[..3] == p;
    }
  }

  /** The errors of the error list, if any, make the API server refuse the object. */
  method ValidateCreate(spec: ResponseSpec) returns (errs: seq<FieldError>)
    ensures errs == [] <==> WellFormedResponse(spec)
    ensures forall e :: e in errs <==> SpecDefect(spec.answers, |spec.answers|, e)
  {
    hide WellFormedResponse, SpecErrors, SpecDefect;
    errs := ValidatePollResponseSpec(spec);
    forall e ensures e in errs <==> SpecDefect(spec.answers, |spec.answers|, e) {
      SpecErrorsExactly(spec.answers, |spec.answers|, e);
    }
  }

  method ValidateUpdate(oldSpec: ResponseSpec, newSpec: ResponseSpec) returns (errs: seq<FieldError>)
    ensures errs == [] <==> WellFormedResponse(newSpec) && oldSpec.pollRef == newSpec.pollRef
    ensures forall e :: e in errs <==>
                        || SpecDefect(newSpec.answers, |newSpec.answers|, e)
                        || (oldSpec.pollRef != newSpec.pollRef
                            && e == FieldError(Forbidden, [Child("spec"), Child("pollRef"), Child("name")]))
  {
    hide WellFormedResponse, SpecErrors, SpecDefect;
    errs := ValidatePollResponseSpec(newSpec);
    forall e ensures e in errs <==> SpecDefect(newSpec.answers, |newSpec.answers|, e) {
      SpecErrorsExactly(newSpec.answers, |newSpec.answers|, e);
    }
    if oldSpec.pollRef != newSpec.pollRef {
      errs := errs + [FieldError(Forbidden, [Child("spec"), Child("pollRef"), Child("name")])];
    }
  }
}
