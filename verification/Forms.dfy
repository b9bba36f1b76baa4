/** From a submitted voting form to the answers of a response: `buildAnswers` in internal/ui/handlers.go. */
module Forms {
  import opened Model
  import opened PollWebhook
  import opened PollResponseWebhook
  import opened PollResponseController

  type Form = map<string, seq<string>>

  // ---------- strings.TrimSpace ----------

  /** The `n` bytes from `i` are the UTF-8 encoding of a character that unicode.IsSpace accepts. */
  predicate SpaceAt(s: string, i: nat, n: nat) {
    && i + n <= |s|
    && match n
       case 1 => 0x09 <= s[i] as int <= 0x0D || s[i] as int == 0x20
       case 2 => s[i] as int == 0xC2 && (s[i + 1] as int == 0x85 || s[i + 1] as int == 0xA0)
       case 3 =>
         var b0, b1, b2 := s[i] as int, s[i + 1] as int, s[i + 2] as int;
         || (b0 == 0xE1 && b1 == 0x9A && b2 == 0x80)
         || (b0 == 0xE2 && b1 == 0x80 && (0x80 <= b2 <= 0x8A || b2 == 0xA8 || b2 == 0xA9 || b2 == 0xAF))
         || (b0 == 0xE2 && b1 == 0x81 && b2 == 0x9F)
         || (b0 == 0xE3 && b1 == 0x80 && b2 == 0x80)
       case _ => false
  }

  predicate IsSpace(w: string) {
    SpaceAt(w, 0, |w|)
  }

  /** The characters with the Unicode property White_Space. */
  predicate WhiteSpace(codePoint: nat) {
    || 0x09 <= codePoint <= 0x0D || codePoint == 0x20 || codePoint == 0x85 || codePoint == 0xA0
    || codePoint == 0x1680 || 0x2000 <= codePoint <= 0x200A || codePoint == 0x2028 || codePoint == 0x2029
    || codePoint == 0x202F || codePoint == 0x205F || codePoint == 0x3000
  }

  /** The UTF-8 encoding, section 3 of RFC 3629. */
  function Utf8(codePoint: nat): string
    requires codePoint < 0x11_0000
  {
    var tail, tail2, tail3 := 0x80 + codePoint % 64, 0x80 + codePoint / 64 % 64, 0x80 + codePoint / 4096 % 64;
    if codePoint < 0x80 then [codePoint as char]
    else if codePoint < 0x800 then [(0xC0 + codePoint / 64) as char, tail as char]
    else if codePoint < 0x1_0000 then [(0xE0 + codePoint / 4096) as char, tail2 as char, tail as char]
    else [(0xF0 + codePoint / 262144) as char, tail3 as char, tail2 as char, tail as char]
  }

  /** The byte patterns are the encodings of the white space characters, and of no other character. */
  lemma SpaceIsWhiteSpace(codePoint: nat)
    requires codePoint < 0x11_0000
    ensures IsSpace(Utf8(codePoint)) <==> WhiteSpace(codePoint)
  {
  }

  lemma SpaceIsEncoded(w: string)
    requires IsSpace(w)
    ensures exists codePoint: nat | codePoint < 0x11_0000 :: WhiteSpace(codePoint) && Utf8(codePoint) == w
  {
    var codePoint := if |w| == 1 then w[0] as int
                     else if |w| == 2 then (w[0] as int - 0xC0) * 64 + (w[1] as int - 0x80)
                     else (w[0] as int - 0xE0) * 4096 + (w[1] as int - 0x80) * 64 + (w[2] as int - 0x80);
    assert WhiteSpace(codePoint);
    assert Utf8(codePoint) == w;
  }

  /** The length of the white space character that the text starts with, or 0. */
  function SpacePrefix(s: string): (n: nat)
    ensures n <= |s| && (n > 0 ==> SpaceAt(s, 0, n))
  {
    if SpaceAt(s, 0, 1) then 1
    else if SpaceAt(s, 0, 2) then 2
    else if SpaceAt(s, 0, 3) then 3
    else 0
  }

  /** The length of the white space character that the text ends with, or 0. */
  function SpaceSuffix(s: string): (n: nat)
    ensures n <= |s| && (n > 0 ==> SpaceAt(s, |s| - n, n))
  {
    if |s| >= 1 && SpaceAt(s, |s| - 1, 1) then 1
    else if |s| >= 2 && SpaceAt(s, |s| - 2, 2) then 2
    else if |s| >= 3 && SpaceAt(s, |s| - 3, 3) then 3
    else 0
  }

  lemma SpacesCutOff(s: string)
    ensures SpacePrefix(s) > 0 ==> IsSpace(s[..SpacePrefix(s)])
    ensures SpaceSuffix(s) > 0 ==> IsSpace(s[|s| - SpaceSuffix(s)..])
  {
  }

  /** They are the shortest white space at that end; there is no other, see SpaceIsFound. */
  lemma SpaceAtEnds(s: string, k: nat)
    requires k <= |s|
    ensures IsSpace(s[..k]) ==> 0 < SpacePrefix(s) <= k
    ensures IsSpace(s[k..]) ==> 0 < SpaceSuffix(s) <= |s| - k
  {
    if IsSpace(s[k..]) {
      assert k == |s| - 1 || k == |s| - 2 || k == |s| - 3;
    }
  }

  function TrimLeft(s: string): (t: string)
    ensures |t| <= |s| && SpacePrefix(t) == 0
  {
    if SpacePrefix(s) > 0 then TrimLeft(s[SpacePrefix(s)..]) else s
  }

  function TrimRight(s: string): (t: string)
    ensures |t| <= |s| && t == s[..|t|] && SpaceSuffix(t) == 0
  {
    if SpaceSuffix(s) > 0 then TrimRight(s[..|s| - SpaceSuffix(s)]) else s
  }

  function TrimSpace(s: string): string {
    TrimRight(TrimLeft(s))
  }

  /** Text that starts with no white space does so after its end is cut off as well. */
  lemma CutKeepsPrefix(s: string, n: nat)
    requires n <= |s| && SpacePrefix(s) == 0
    ensures SpacePrefix(s[..n]) == 0
  {
  }

  /** Trimming leaves neither end white space, and leaves text alone exactly when neither end was. */
  lemma TrimStable(s: string)
    ensures SpacePrefix(TrimSpace(s)) == 0 && SpaceSuffix(TrimSpace(s)) == 0
    ensures TrimSpace(s) == s <==> SpacePrefix(s) == 0 && SpaceSuffix(s) == 0
  {
    hide SpaceAt, IsSpace, SpacePrefix, SpaceSuffix;
    CutKeepsPrefix(TrimLeft(s), |TrimSpace(s)|);
  }

  lemma TrimmedIsStable(s: string)
    ensures TrimSpace(TrimSpace(s)) == TrimSpace(s)
  {
    hide SpaceAt, IsSpace, SpacePrefix, SpaceSuffix;
    TrimStable(s);
    TrimStable(TrimSpace(s));
  }

  predicate Continues(c: char) {
    0x80 <= c as int <= 0xBF
  }

  /** An encoding starts with the only byte of it that does not continue one, and no part of it is another. */
  lemma SpaceBytes(w: string, k: nat)
    requires IsSpace(w) && k <= |w|
    ensures 1 <= |w| <= 3 && !Continues(w[0])
    ensures k < |w| ==> !IsSpace(w[..k])
    ensures 0 < k ==> !IsSpace(w[k..])
    ensures 0 < k < |w| ==> Continues(w[k])
  {
  }

  /** So white space is found where it stands, whatever follows or precedes it. */
  lemma SpaceIsFound(v: string, w: string)
    requires IsSpace(w)
    ensures SpacePrefix(w + v) == |w|
    ensures SpaceSuffix(v + w) == |w|
  {
    hide SpaceAt, IsSpace, SpacePrefix, SpaceSuffix;
    assert (w + v)[..|w|] == w && (v + w)[|v|..] == w;
    SpaceAtEnds(w + v, |w|);
    SpaceAtEnds(v + w, |v|);
    SpacesCutOff(w + v);
    SpacesCutOff(v + w);
    var k, m := SpacePrefix(w + v), SpaceSuffix(v + w);
    assert (w + v)[..k] == w[..k] && (v + w)[|v + w| - m..] == w[|w| - m..];
    SpaceBytes(w, k);
    SpaceBytes(w, |w| - m);
  }

  lemma NoSpaceAcross(v: string, w: string, k: nat)
    requires IsSpace(w) && v != [] && |v| < k <= |v + w|
    ensures !IsSpace((v + w)[..k])
  {
    hide SpaceAt, IsSpace;
    var u := (v + w)[..k];
    assert u[|v|] == w[0] && |v| < |u|;
    SpaceBytes(w, 0);
    if IsSpace(u) {
      SpaceBytes(u, |v|);
    }
  }

  /** And no encoding reaches from one text into white space that follows it. */
  lemma SpaceStaysApart(v: string, w: string)
    requires IsSpace(w) && v != []
    ensures SpacePrefix(v + w) == SpacePrefix(v)
  {
    hide SpaceAt, IsSpace, SpacePrefix, SpaceSuffix;
    SpacesCutOff(v);
    SpacesCutOff(v + w);
    var k, m := SpacePrefix(v + w), SpacePrefix(v);
    assert (v + w)[..m] == v[..m];
    SpaceAtEnds(v + w, m);
    if k > |v| {
      NoSpaceAcross(v, w, k);
    } else {
      assert (v + w)[..k] == v[..k];
      SpaceAtEnds(v, k);
    }
  }

  lemma {:induction false} TrimLeftThenSpace(v: string, w: string)
    requires IsSpace(w)
    ensures TrimLeft(v + w) == if TrimLeft(v) == [] then [] else TrimLeft(v) + w
  {
    hide SpaceAt, IsSpace, SpacePrefix, SpaceSuffix;
    SpaceBytes(w, 0);
    if v == [] {
      SpaceIsFound([], w);
      assert v + w == w == w + [] && w[|w|..] == [];
    } else {
      SpaceStaysApart(v, w);
      var n := SpacePrefix(v);
      if n > 0 {
        TrimLeftThenSpace(v[n..], w);
        assert (v + w)[n..] == v[n..] + w;
      }
    }
  }

  /** A white space character more at either end makes no difference. */
  lemma OuterSpaceIsTrimmed(v: string, w: string)
    requires IsSpace(w)
    ensures TrimSpace(w + v) == TrimSpace(v)
    ensures TrimSpace(v + w) == TrimSpace(v)
  {
    hide SpaceAt, IsSpace, SpacePrefix, SpaceSuffix;
    SpaceBytes(w, 0);
    SpaceIsFound(v, w);
    assert (w + v)[|w|..] == v;
    TrimLeftThenSpace(v, w);
    var t := TrimLeft(v);
    SpaceIsFound(t, w);
    assert (t + w)[..|t + w| - |w|] == t;
  }

  // ---------- The answer to one question ----------

  function ValuesOf(form: Form, id: string): seq<string> {
    if "q." + id in form then form["q." + id] else []
  }

  /** The values with white space trimmed, the blank ones left out. */
  function Chosen(values: seq<string>): seq<string> {
    if values == [] then []
    else
      var n := |values| - 1;
      Chosen(values[..n]) + if TrimSpace(values[n]) == "" then [] else [TrimSpace(values[n])]
  }

  function TextOf(values: seq<string>): string {
    if values == [] then "" else TrimSpace(values[0])
  }

  /** The answer that the form gives to `q`, unless it leaves the question blank. */
  function FormAnswer(q: Question, form: Form): Option<Answer> {
    var values := ValuesOf(form, q.id);
    match q.qtype
    case Choice => if Chosen(values) == [] then None else Some(Answer(q.id, Chosen(values), ""))
    case FreeText => if TextOf(values) == "" then None else Some(Answer(q.id, [], TextOf(values)))
    case UnsupportedType(_) => None
  }

  /** The answers to the first `n` questions, in the order of the spec. */
  function FormAnswers(questions: seq<Question>, form: Form, n: nat): seq<Answer>
    requires n <= |questions|
  {
    if n == 0 then []
    else
      var a := FormAnswer(questions[n - 1], form);
      FormAnswers(questions, form, n - 1) + if a == None then [] else [a.value]
  }

  /** None stands for the error "no answers were provided". */
  method BuildAnswers(spec: PollSpec, form: Form) returns (result: Option<seq<Answer>>)
    ensures var answers := FormAnswers(spec.questions, form, |spec.questions|);
            result == if answers == [] then None else Some(answers)
  {
    hide TrimSpace;
    var answers: seq<Answer> := [];
    for i := 0 to |spec.questions|
      invariant answers == FormAnswers(spec.questions, form, i)
    {
      var q := spec.questions[i];
      var key := "q." + q.id;
      var values := if key in form then form[key] else [];
      match q.qtype
      case Choice =>
        var selected: seq<string> := [];
        for k := 0 to |values|
          invariant selected == Chosen(values[..k])
        {
          var v := TrimSpace(values[k]);
          assert values[..k + 1][..k] == values[..k];
          if v != "" {
            selected := selected + [v];
          }
        }
        assert values[..|values|] == values;
        if |selected| == 0 {
          continue;
        }
        answers := answers + [Answer(q.id, selected, "")];
      case FreeText =>
        var text := "";
        if |values| > 0 {
          text := TrimSpace(values[0]);
        }
        if text == "" {
          continue;
        }
        answers := answers + [Answer(q.id, [], text)];
      case UnsupportedType(_) =>
    }
    if |answers| == 0 {
      return None;
    }
    return Some(answers);
  }

  // ---------- What the answers look like ----------

  lemma {:induction false} ChosenAreTrimmed(values: seq<string>)
    ensures forall v | v in Chosen(values) :: v != "" && TrimSpace(v) == v
  {
    if values != [] {
      ChosenAreTrimmed(values[..|values| - 1]);
      TrimmedIsStable(values[|values| - 1]);
    }
  }

  /** The choices arrive verbatim exactly when none of them is blank or has white space at an end. */
  lemma {:induction false} ChosenVerbatim(values: seq<string>)
    ensures Chosen(values) == values <==> forall v | v in values :: v != "" && TrimSpace(v) == v
    ensures |Chosen(values)| <= |values|
  {
    hide TrimSpace;
    if values != [] {
      var n := |values| - 1;
      ChosenVerbatim(values[..n]);
      ChosenAreTrimmed(values);
      if forall v | v in values :: v != "" && TrimSpace(v) == v {
        assert values[n] in values && forall v | v in values[..n] :: v in values;
        assert Chosen(values) == values[..n] + [values[n]];
      }
    }
  }

  /** The places of the values that are not blank, in order. */
  ghost predicate NonBlankAt(values: seq<string>, at: seq<nat>) {
    && (forall k | 0 <= k < |at| :: at[k] < |values|)
    && (forall j, k | 0 <= j < k < |at| :: at[j] < at[k])
    && forall i | 0 <= i < |values| :: TrimSpace(values[i]) != "" <==> i in at
  }

  /** The choices are the trimmed values in their order, without those that are blank. */
  lemma {:induction false} ChosenInOrder(values: seq<string>) returns (at: seq<nat>)
    ensures NonBlankAt(values, at)
    ensures |Chosen(values)| == |at|
    ensures forall k | 0 <= k < |at| :: Chosen(values)[k] == TrimSpace(values[at[k]])
  {
    hide TrimSpace, NonBlankAt;
    at := [];
    if values == [] {
      assert NonBlankAt(values, at) by { NothingAt(); }
    } else {
      var n := |values| - 1;
      var before := ChosenInOrder(values[..n]);
      at := if TrimSpace(values[n]) == "" then before else before + [n];
      NonBlankStep(values, n, before);
      assert forall k | 0 <= k < |before| :: at[k] == before[k] && values[..n][before[k]] == values[before[k]];
    }
  }

  lemma NothingAt()
    ensures NonBlankAt([], [])
  {
  }

  lemma NonBlankStep(values: seq<string>, n: nat, before: seq<nat>)
    requires |values| == n + 1 && NonBlankAt(values[..n], before)
    ensures NonBlankAt(values, if TrimSpace(values[n]) == "" then before else before + [n])
    ensures forall k | 0 <= k < |before| :: before[k] < n
  {
    hide TrimSpace;
    var at := if TrimSpace(values[n]) == "" then before else before + [n];
    forall i | 0 <= i < n ensures TrimSpace(values[i]) != "" <==> i in at {
      assert values[..n][i] == values[i];
      assert i in at <==> i in before;
    }
    assert n !in before;
  }

  /** The answer to a Choice question holds what was chosen, trimmed, in order, without blanks; none if all is blank. */
  lemma ChoiceAnswer(q: Question, form: Form)
    requires q.qtype == Choice
    ensures var values := if "q." + q.id in form then form["q." + q.id] else [];
            exists at | NonBlankAt(values, at) ::
              match FormAnswer(q, form)
              case None => at == []
              case Some(a) =>
                && at != [] && a.questionID == q.id && a.text == "" && |a.selectedOptions| == |at|
                && forall k | 0 <= k < |at| :: a.selectedOptions[k] == TrimSpace(values[at[k]])
  {
    hide TrimSpace, Chosen;
    var at := ChosenInOrder(ValuesOf(form, q.id));
    assert NonBlankAt(ValuesOf(form, q.id), at);
    hide NonBlankAt;
  }

  /** The answer to a FreeText question is the first value, trimmed; there is none if it is blank or missing. */
  lemma TextAnswer(q: Question, form: Form)
    requires q.qtype == FreeText
    ensures FormAnswer(q, form) ==
            if "q." + q.id !in form || form["q." + q.id] == [] then None
            else
              var text := TrimSpace(form["q." + q.id][0]);
              if text == "" then None else Some(Answer(q.id, [], text))
  {
    hide TrimSpace;
  }

  lemma FormAnswerShape(q: Question, form: Form)
    ensures var a := FormAnswer(q, form);
            a.Some? ==>
              && a.value.questionID == q.id
              && (a.value.selectedOptions == [] <==> a.value.text != "")
              && "" !in a.value.selectedOptions
              && (q.qtype == Choice <==> a.value.selectedOptions != [])
  {
    ChosenAreTrimmed(ValuesOf(form, q.id));
  }

  /** Every answer comes from a question, and every question that is not left blank has its answer. */
  lemma {:induction false} FormAnswersComeFromQuestions(questions: seq<Question>, form: Form, n: nat)
    requires n <= |questions|
    ensures var answers := FormAnswers(questions, form, n);
            && (forall k | 0 <= k < |answers| ::
                  exists i | 0 <= i < n :: FormAnswer(questions[i], form) == Some(answers[k]))
            && (forall i | 0 <= i < n && FormAnswer(questions[i], form).Some? ::
                  FormAnswer(questions[i], form).value in answers)
  {
    hide FormAnswer;
    if n > 0 {
      FormAnswersComeFromQuestions(questions, form, n - 1);
    }
  }

  /** The question that the k-th answer comes from. */
  lemma {:induction false} SourceOf(questions: seq<Question>, form: Form, n: nat, k: nat) returns (i: nat)
    requires n <= |questions| && k < |FormAnswers(questions, form, n)|
    ensures i < n && FormAnswer(questions[i], form) == Some(FormAnswers(questions, form, n)[k])
  {
    hide FormAnswer;
    if k < |FormAnswers(questions, form, n - 1)| {
      i := SourceOf(questions, form, n - 1, k);
    } else {
      i := n - 1;
    }
  }

  /** They are in the order of the spec: their ids are the ids of the questions that are not left blank. */
  lemma {:induction false} FormAnswersInOrder(questions: seq<Question>, form: Form, n: nat)
    requires n <= |questions|
    ensures AnswerIds(FormAnswers(questions, form, n)) == AnsweredIds(questions, form, n)
  {
    hide FormAnswer;
    if n > 0 {
      FormAnswersInOrder(questions, form, n - 1);
      var before, a := FormAnswers(questions, form, n - 1), FormAnswer(questions[n - 1], form);
      if a.Some? {
        FormAnswerShape(questions[n - 1], form);
        assert AnswerIds(before + [a.value]) == AnswerIds(before) + [questions[n - 1].id];
      }
    }
  }

  function AnsweredIds(questions: seq<Question>, form: Form, n: nat): seq<string>
    requires n <= |questions|
  {
    if n == 0 then []
    else
      var blank := FormAnswer(questions[n - 1], form) == None;
      AnsweredIds(questions, form, n - 1) + if blank then [] else [questions[n - 1].id]
  }

  /** So no question is answered twice. */
  lemma {:induction false} AnsweredIdsAreDistinct(questions: seq<Question>, form: Form, n: nat)
    requires Distinct(QuestionIds(questions)) && n <= |questions|
    ensures Distinct(AnsweredIds(questions, form, n))
    ensures forall id | id in AnsweredIds(questions, form, n) :: id in QuestionIds(questions)[..n]
  {
    hide FormAnswer;
    if n > 0 {
      AnsweredIdsAreDistinct(questions, form, n - 1);
      var ids := QuestionIds(questions);
      assert ids[n - 1] == questions[n - 1].id;
      assert ids[..n] == ids[..n - 1] + [ids[n - 1]];
      assert forall k | 0 <= k < n - 1 :: ids[..n - 1][k] == ids[k] != ids[n - 1];
      assert ids[n - 1] !in ids[..n - 1];
      assert ids[n - 1] !in AnsweredIds(questions, form, n - 1);
    }
  }

  // ---------- From the form to acceptance ----------

  /** What the form puts down for `q` is blank, or obeys its rules. */
  ghost predicate FillsIn(q: Question, form: Form) {
    var values := ValuesOf(form, q.id);
    match q.qtype
    case Choice =>
      Chosen(values) == []
      || (&& Distinct(Chosen(values))
          && (forall v | v in Chosen(values) :: q.choice.Some? && v in q.choice.value.options)
          && (q.choice.Some? && (q.choice.value.allowMultipleChoices || |Chosen(values)| == 1)))
    case FreeText =>
      q.freeText.Some? && q.freeText.value.maxResponseLength > 0 ==>
        |TextOf(values)| <= q.freeText.value.maxResponseLength
    case UnsupportedType(_) => true
  }

  lemma FormAnswerFits(q: Question, form: Form)
    requires FormAnswer(q, form).Some?
    ensures AnswerFits(q, FormAnswer(q, form).value) <==> FillsIn(q, form)
    ensures q.qtype == Choice && FillsIn(q, form) ==> Distinct(Chosen(ValuesOf(form, q.id)))
  {
  }

  lemma BlankFillsIn(q: Question, form: Form)
    requires FormAnswer(q, form).None?
    ensures FillsIn(q, form)
  {
  }

  lemma AnswerOkIsFit(questions: seq<Question>, i: nat, a: Answer)
    requires Distinct(QuestionIds(questions)) && i < |questions| && questions[i].id == a.questionID
    ensures AnswerOk(questions, a) <==> AnswerFits(questions[i], a)
  {
    var ids := QuestionIds(questions);
    assert forall k | 0 <= k < |ids| :: ids[k] == questions[k].id;
    hide AnswerFits;
  }

  /**
   The answers of a form are accepted before closesAt exactly when every
   question is filled in by its rules, or left blank.
   */
  lemma FormIsAcceptedIff(spec: PollSpec, form: Form, now: Time)
    requires UniqueIds(spec) && !ClosedAt(spec, now)
    requires forall i | 0 <= i < |spec.questions| :: |TextOf(ValuesOf(form, spec.questions[i].id))| < 0x8000_0000
    ensures Verdict(spec, FormAnswers(spec.questions, form, |spec.questions|), ClosedAt(spec, now)) == None
       <==> forall i | 0 <= i < |spec.questions| :: FillsIn(spec.questions[i], form)
  {
    hide FillsIn, AnswerFits, AnswerOk, FormAnswer, FormAnswers, Distinct, Verdict;
    var questions, answers := spec.questions, FormAnswers(spec.questions, form, |spec.questions|);
    FormAnswersComeFromQuestions(questions, form, |questions|);
    forall i | 0 <= i < |questions|
      ensures FormAnswer(questions[i], form).Some? ==>
                var a := FormAnswer(questions[i], form).value;
                |a.text| < 0x8000_0000 && (AnswerOk(questions, a) <==> FillsIn(questions[i], form))
      ensures FormAnswer(questions[i], form).None? ==> FillsIn(questions[i], form)
    {
      FormQuestion(questions, i, form);
    }
    forall k | 0 <= k < |answers| ensures |answers[k].text| < 0x8000_0000 {
      var i := SourceOf(questions, form, |questions|, k);
    }
    ValidationIsSoundAndComplete(spec, answers, now);
    if forall i | 0 <= i < |questions| :: FillsIn(questions[i], form) {
      forall k | 0 <= k < |answers| ensures AnswerOk(questions, answers[k]) {
        var i := SourceOf(questions, form, |questions|, k);
      }
    }
    if forall k | 0 <= k < |answers| :: AnswerOk(questions, answers[k]) {
      forall i | 0 <= i < |questions| ensures FillsIn(questions[i], form) {
        if FormAnswer(questions[i], form).Some? {
          assert FormAnswer(questions[i], form).value in answers;
        }
      }
    }
  }

  lemma FormQuestion(questions: seq<Question>, i: nat, form: Form)
    requires Distinct(QuestionIds(questions)) && i < |questions|
    requires |TextOf(ValuesOf(form, questions[i].id))| < 0x8000_0000
    ensures FormAnswer(questions[i], form).Some? ==>
              var a := FormAnswer(questions[i], form).value;
              |a.text| < 0x8000_0000 && (AnswerOk(questions, a) <==> FillsIn(questions[i], form))
    ensures FormAnswer(questions[i], form).None? ==> FillsIn(questions[i], form)
  {
    hide FillsIn, AnswerOk, AnswerFits, TextOf, ValuesOf, TrimSpace, Chosen;
    if FormAnswer(questions[i], form).Some? {
      FormAnswerShape(questions[i], form);
      FormAnswerFits(questions[i], form);
      AnswerOkIsFit(questions, i, FormAnswer(questions[i], form).value);
    } else {
      BlankFillsIn(questions[i], form);
    }
  }

  /** And then admission lets them through as well. */
  lemma FilledInFormIsAdmitted(spec: PollSpec, form: Form)
    requires UniqueIds(spec)
    requires forall i | 0 <= i < |spec.questions| :: FillsIn(spec.questions[i], form)
    ensures var answers := FormAnswers(spec.questions, form, |spec.questions|);
            && Distinct(AnswerIds(answers))
            && forall k | 0 <= k < |answers| :: WellFormedAnswer(answers[k])
  {
    hide FillsIn, FormAnswer, FormAnswers, Distinct, WellFormedAnswer;
    var questions, answers := spec.questions, FormAnswers(spec.questions, form, |spec.questions|);
    FormAnswersInOrder(questions, form, |questions|);
    AnsweredIdsAreDistinct(questions, form, |questions|);
    FormAnswersComeFromQuestions(questions, form, |questions|);
    forall k | 0 <= k < |answers| ensures WellFormedAnswer(answers[k]) {
      var i := SourceOf(questions, form, |questions|, k);
      FilledInAnswer(questions[i], form);
    }
  }

  lemma FilledInAnswer(q: Question, form: Form)
    requires FormAnswer(q, form).Some? && FillsIn(q, form)
    ensures WellFormedAnswer(FormAnswer(q, form).value)
  {
    FormAnswerShape(q, form);
    hide TrimSpace;
  }

  /**
   An admitted option with white space at an end cannot be voted for through
   the form: choosing it is rejected as an unknown option, unless its trimmed
   text is another option, which then gets the vote.
   */
  lemma UntrimmedOptionIsLost(q: Question, form: Form, o: string)
    requires WellFormedQuestion(q) && q.qtype == Choice && o in q.choice.value.options
    requires ValuesOf(form, q.id) == [o] && TrimSpace(o) != o && TrimSpace(o) != ""
    ensures var a := FormAnswer(q, form);
            && a.Some? && o !in a.value.selectedOptions
            && AnswerProblem(q, a.value) ==
               if TrimSpace(o) in q.choice.value.options then None
               else Some(ValidationError(UnknownOption, NotConfigured(q.id, TrimSpace(o))))
  {
    hide TrimSpace;
    assert [o][..0] == [];
    assert Chosen([o]) == [TrimSpace(o)];
    assert SelectionProblem(q.id, q.choice.value.options, [TrimSpace(o)], 1) == None;
  }
}
