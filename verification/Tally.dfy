/**
 Tallying accepted responses: `aggregateResults` in
 internal/controller/poll_controller.go. The pointers into the result slices
 that the code keeps in its maps are places in the sequence `results`.
 */
module Tally {
  import opened Model
  import opened PollWebhook
  import opened PollResponseWebhook

  predicate CountedFor(pollName: string, r: PollResponse) {
    r.status.phase == ResponseAccepted && r.spec.pollRef == pollName
  }

  // ---------- The plain counting definition ----------

  /** The answers of the counted responses, one after the other. */
  function Pool(pollName: string, responses: seq<PollResponse>): seq<Answer> {
    if responses == [] then []
    else
      var n := |responses| - 1;
      Pool(pollName, responses[..n])
      + if CountedFor(pollName, responses[n]) then responses[n].spec.answers else []
  }

  function CountedResponses(pollName: string, responses: seq<PollResponse>): nat {
    if responses == [] then 0
    else
      var n := |responses| - 1;
      CountedResponses(pollName, responses[..n]) + if CountedFor(pollName, responses[n]) then 1 else 0
  }

  /** How many answers are about question `id`. */
  function AnswersTo(id: string, answers: seq<Answer>): nat {
    if answers == [] then 0
    else
      var n := |answers| - 1;
      AnswersTo(id, answers[..n]) + if answers[n].questionID == id then 1 else 0
  }

  /** How often option `o` of question `id` is selected. */
  function VotesFor(id: string, o: string, answers: seq<Answer>): nat {
    if answers == [] then 0
    else
      var n := |answers| - 1;
      VotesFor(id, o, answers[..n])
      + if answers[n].questionID == id then multiset(answers[n].selectedOptions)[o] else 0
  }

  function OptionsOf(q: Question): seq<string> {
    if q.qtype == Choice && q.choice.Some? then q.choice.value.options else []
  }

  /** Should an option be configured twice, only its last row collects votes. */
  function OptionRow(q: Question, j: nat, answers: seq<Answer>): OptionResult
    requires j < |OptionsOf(q)|
  {
    var options := OptionsOf(q);
    OptionResult(options[j],
      if Index(options)[options[j]] == j then ToInt32(VotesFor(q.id, options[j], answers)) else 0)
  }

  function Row(q: Question, answers: seq<Answer>): QuestionResult {
    QuestionResult(q.id,
      seq(|OptionsOf(q)|, j requires 0 <= j < |OptionsOf(q)| => OptionRow(q, j, answers)),
      ToInt32(AnswersTo(q.id, answers)))
  }

  /** One row per question and one per option, in the order of the spec. */
  function Rows(questions: seq<Question>, answers: seq<Answer>): seq<QuestionResult> {
    seq(|questions|, i requires 0 <= i < |questions| => Row(questions[i], answers))
  }

  /** The rows list the configured options in their order; questions without a choice have none. */
  lemma RowListsOptions(q: Question, answers: seq<Answer>)
    ensures OptionNames(Row(q, answers).options) ==
            if q.qtype == Choice && q.choice.Some? then q.choice.value.options else []
    ensures Row(q, answers).questionID == q.id
  {
    hide VotesFor, Index, ToInt32;
  }

  /** And the rows stand in the order of the questions. */
  lemma RowsListQuestions(questions: seq<Question>, answers: seq<Answer>)
    ensures |Rows(questions, answers)| == |questions|
    ensures ResultIds(Rows(questions, answers)) == QuestionIds(questions)
    ensures forall i | 0 <= i < |questions| ::
              OptionNames(Rows(questions, answers)[i].options) ==
              var q := questions[i];
              if q.qtype == Choice && q.choice.Some? then q.choice.value.options else []
  {
    hide Row;
    forall i | 0 <= i < |questions|
      ensures Rows(questions, answers)[i].questionID == questions[i].id
      ensures OptionNames(Rows(questions, answers)[i].options) ==
              var q := questions[i];
              if q.qtype == Choice && q.choice.Some? then q.choice.value.options else []
    {
      RowListsOptions(questions[i], answers);
    }
    hide OptionNames;
  }

  // ---------- The code ----------

  datatype Place = Place(row: nat, option: nat)

  method InitialResults(questions: seq<Question>) returns (results: seq<QuestionResult>)
    ensures results == Rows(questions, [])
  {
    results := [];
    for i := 0 to |questions|
      invariant results == Rows(questions[..i], [])
    {
      var q := questions[i];
      var options: seq<OptionResult> := [];
      if q.qtype == Choice && q.choice != None {
        for j := 0 to |q.choice.value.options|
          invariant |options| == j
          invariant forall k | 0 <= k < j :: options[k] == OptionResult(OptionsOf(q)[k], 0)
        {
          options := options + [OptionResult(q.choice.value.options[j], 0)];
        }
      }
      assert Row(q, []).options == options;
      results := results + [QuestionResult(q.id, options, 0)];
      assert questions[..i + 1] == questions[..i] + [q];
    }
    assert questions[..|questions|] == questions;
  }

  /** Where the options of row `i` are found. */
  function PlacesOf(row: nat, names: seq<string>): map<string, Place> {
    map o | o in Index(names) :: Place(row, Index(names)[o])
  }

  lemma PlacesStep(row: nat, names: seq<string>, n: nat)
    requires n < |names|
    ensures PlacesOf(row, names[..n + 1]) == PlacesOf(row, names[..n])[names[n] := Place(row, n)]
  {
    IndexStep(names, n);
    hide Index;
  }

  method IndexOptions(row: nat, names: seq<string>) returns (m: map<string, Place>)
    ensures m == PlacesOf(row, names)
  {
    m := map[];
    assert PlacesOf(row, names[..0]) == map[];
    hide PlacesOf;
    for j := 0 to |names|
      invariant m == PlacesOf(row, names[..j])
    {
      PlacesStep(row, names, j);
      m := m[names[j] := Place(row, j)];
    }
    assert names[..|names|] == names;
  }

  /** The option places of the first `n` questions, by question id; rows without options have no entry. */
  function OptionIndex(questions: seq<Question>, n: nat): map<string, map<string, Place>>
    requires n <= |questions|
  {
    if n == 0 then map[]
    else
      var rest, options := OptionIndex(questions, n - 1), OptionsOf(questions[n - 1]);
      if options == [] then rest else rest[questions[n - 1].id := PlacesOf(n - 1, options)]
  }

  method IndexResults(questions: seq<Question>, results: seq<QuestionResult>)
    returns (byId: map<string, nat>, optIdx: map<string, map<string, Place>>)
    requires results == Rows(questions, [])
    ensures byId == Index(QuestionIds(questions))
    ensures optIdx == OptionIndex(questions, |questions|)
  {
    ghost var ids := QuestionIds(questions);
    byId, optIdx := map[], map[];
    for i := 0 to |results|
      invariant byId == Index(ids[..i])
      invariant optIdx == OptionIndex(questions, i)
    {
      IndexStep(ids, i);
      byId := byId[results[i].questionID := i];
      assert OptionNames(results[i].options) == OptionsOf(questions[i]);
      if |results[i].options| > 0 {
        var m := IndexOptions(i, OptionNames(results[i].options));
        optIdx := optIdx[results[i].questionID := m];
      }
    }
    assert ids[..|results|] == ids;
  }

  lemma DifferentIds(questions: seq<Question>, i: nat, j: nat)
    requires Distinct(QuestionIds(questions)) && i < |questions| && j < |questions| && i != j
    ensures questions[i].id != questions[j].id
  {
    var ids := QuestionIds(questions);
    assert ids[i] == questions[i].id && ids[j] == questions[j].id;
  }

  /** With unique ids, the option index leads to the options of the question with that id. */
  lemma {:induction false} OptionIndexAt(questions: seq<Question>, n: nat, i: nat)
    requires Distinct(QuestionIds(questions)) && n <= |questions| && i < |questions|
    ensures var id, index := questions[i].id, OptionIndex(questions, n);
            && (id in index <==> i < n && OptionsOf(questions[i]) != [])
            && (id in index ==> index[id] == PlacesOf(i, OptionsOf(questions[i])))
  {
    hide Distinct, PlacesOf, OptionsOf;
    if n > 0 {
      OptionIndexAt(questions, n - 1, i);
      if i != n - 1 {
        DifferentIds(questions, i, n - 1);
      }
    }
  }

  lemma AnswersToSnoc(id: string, answers: seq<Answer>, a: Answer)
    ensures AnswersTo(id, answers + [a]) == AnswersTo(id, answers) + if a.questionID == id then 1 else 0
  {
    assert (answers + [a])[..|answers|] == answers;
  }

  lemma VotesForSnoc(id: string, o: string, answers: seq<Answer>, a: Answer)
    ensures VotesFor(id, o, answers + [a]) ==
            VotesFor(id, o, answers) + if a.questionID == id then multiset(a.selectedOptions)[o] else 0
  {
    assert (answers + [a])[..|answers|] == answers;
  }

  /** The votes that answer `a` gives to the `j`-th option row of question `q`. */
  function AddedVotes(q: Question, j: nat, a: Answer): nat
    requires j < |OptionsOf(q)|
  {
    var o := OptionsOf(q)[j];
    if a.questionID == q.id && Index(OptionsOf(q))[o] == j then multiset(a.selectedOptions)[o] else 0
  }

  lemma OptionRowSnoc(q: Question, j: nat, answers: seq<Answer>, a: Answer)
    requires j < |OptionsOf(q)|
    ensures OptionRow(q, j, answers + [a]) ==
            OptionResult(OptionsOf(q)[j], ToInt32(OptionRow(q, j, answers).votes + AddedVotes(q, j, a)))
  {
    var o := OptionsOf(q)[j];
    VotesForSnoc(q.id, o, answers, a);
    hide VotesFor, OptionsOf, Index;
    if Index(OptionsOf(q))[o] == j {
      WrapOnceOrTwice(VotesFor(q.id, o, answers), AddedVotes(q, j, a));
    }
  }

  lemma AddedVotesOfOneMore(q: Question, j: nat, a: Answer, sel: string)
    requires j < |OptionsOf(q)| && a.questionID == q.id
    ensures AddedVotes(q, j, a.(selectedOptions := a.selectedOptions + [sel])) ==
            AddedVotes(q, j, a)
            + if sel in Index(OptionsOf(q)) && Index(OptionsOf(q))[sel] == j then 1 else 0
  {
    hide OptionsOf, Index;
    assert multiset(a.selectedOptions + [sel]) == multiset(a.selectedOptions) + multiset{sel};
  }

  /** Selecting `sel` as well gives one more vote to the option's last row. */
  lemma OptionRowOfOneMore(q: Question, j: nat, answers: seq<Answer>, a: Answer, sel: string)
    requires j < |OptionsOf(q)| && a.questionID == q.id
    ensures var b := a.(selectedOptions := a.selectedOptions + [sel]);
            var o := OptionRow(q, j, answers + [a]);
            OptionRow(q, j, answers + [b]) ==
            if sel in Index(OptionsOf(q)) && Index(OptionsOf(q))[sel] == j then o.(votes := ToInt32(o.votes + 1)) else o
  {
    hide *;
    var b := a.(selectedOptions := a.selectedOptions + [sel]);
    OptionRowSnoc(q, j, answers, a);
    OptionRowSnoc(q, j, answers, b);
    AddedVotesOfOneMore(q, j, a, sel);
    WrapOnceOrTwice(OptionRow(q, j, answers).votes + AddedVotes(q, j, a), 1);
  }

  lemma RowOfOneMore(q: Question, answers: seq<Answer>, a: Answer, sel: string)
    requires a.questionID == q.id
    ensures var row := Row(q, answers + [a]);
            var b := a.(selectedOptions := a.selectedOptions + [sel]);
            var index := Index(OptionsOf(q));
            Row(q, answers + [b]) ==
            if sel !in index then row
            else
              var o := row.options[index[sel]];
              row.(options := row.options[index[sel] := o.(votes := ToInt32(o.votes + 1))])
  {
    hide OptionsOf, OptionRow, ToInt32, AnswersTo, Index;
    var b := a.(selectedOptions := a.selectedOptions + [sel]);
    AnswersToSnoc(q.id, answers, a);
    AnswersToSnoc(q.id, answers, b);
    var index := Index(OptionsOf(q));
    forall j | 0 <= j < |OptionsOf(q)| && (sel in index ==> index[sel] != j)
      ensures OptionRow(q, j, answers + [b]) == OptionRow(q, j, answers + [a])
    {
      OptionRowOfOneMore(q, j, answers, a, sel);
    }
    if sel in index {
      OptionRowOfOneMore(q, index[sel], answers, a, sel);
      assert Row(q, answers + [b]).options ==
             Row(q, answers + [a]).options[index[sel] := OptionRow(q, index[sel], answers + [b])];
    } else {
      assert Row(q, answers + [b]).options == Row(q, answers + [a]).options;
    }
  }

  /** An answer without selections is one more response to its question, and nothing to the others. */
  lemma RowOfBareAnswer(q: Question, answers: seq<Answer>, a: Answer)
    requires a.questionID != q.id || a.selectedOptions == []
    ensures var row := Row(q, answers);
            Row(q, answers + [a]) ==
            if a.questionID == q.id then row.(responses := ToInt32(row.responses + 1)) else row
  {
    AnswersToSnoc(q.id, answers, a);
    if a.questionID == q.id {
      WrapOnceOrTwice(AnswersTo(q.id, answers), 1);
    }
    forall j | 0 <= j < |OptionsOf(q)| ensures OptionRow(q, j, answers + [a]) == OptionRow(q, j, answers) {
      VotesForSnoc(q.id, OptionsOf(q)[j], answers, a);
    }
    hide OptionsOf, OptionRow, ToInt32, AnswersTo;
  }

  /** When all rows but one agree, only that one is replaced. */
  lemma RowsDifferAt(questions: seq<Question>, xs: seq<Answer>, ys: seq<Answer>, i: nat)
    requires i < |questions|
    requires forall k | 0 <= k < |questions| && k != i :: Row(questions[k], ys) == Row(questions[k], xs)
    ensures Rows(questions, ys) == Rows(questions, xs)[i := Row(questions[i], ys)]
  {
    hide Row;
  }

  lemma RowsOfUnknownQuestion(questions: seq<Question>, answers: seq<Answer>, a: Answer)
    requires a.questionID !in QuestionIds(questions)
    ensures Rows(questions, answers + [a]) == Rows(questions, answers)
  {
    forall i | 0 <= i < |questions| ensures Row(questions[i], answers + [a]) == Row(questions[i], answers) {
      assert questions[i].id == QuestionIds(questions)[i];
      RowOfBareAnswer(questions[i], answers, a);
    }
    hide Row;
  }

  lemma RowsOfBareAnswer(questions: seq<Question>, answers: seq<Answer>, a: Answer, i: nat)
    requires Distinct(QuestionIds(questions)) && i < |questions| && questions[i].id == a.questionID
    requires a.selectedOptions == []
    ensures var rows := Rows(questions, answers);
            Rows(questions, answers + [a]) == rows[i := rows[i].(responses := ToInt32(rows[i].responses + 1))]
  {
    forall k | 0 <= k < |questions| && k != i ensures Row(questions[k], answers + [a]) == Row(questions[k], answers) {
      DifferentIds(questions, k, i);
      RowOfBareAnswer(questions[k], answers, a);
    }
    RowOfBareAnswer(questions[i], answers, a);
    RowsDifferAt(questions, answers, answers + [a], i);
  }

  lemma RowsOfOneMore(questions: seq<Question>, answers: seq<Answer>, a: Answer, sel: string, i: nat)
    requires Distinct(QuestionIds(questions)) && i < |questions| && questions[i].id == a.questionID
    ensures var rows := Rows(questions, answers + [a]);
            var b := a.(selectedOptions := a.selectedOptions + [sel]);
            Rows(questions, answers + [b]) == rows[i := Row(questions[i], answers + [b])]
  {
    var b := a.(selectedOptions := a.selectedOptions + [sel]);
    forall k | 0 <= k < |questions| && k != i
      ensures Row(questions[k], answers + [b]) == Row(questions[k], answers + [a])
    {
      DifferentIds(questions, k, i);
      RowOfBareAnswer(questions[k], answers, a);
      RowOfBareAnswer(questions[k], answers, b);
    }
    RowsDifferAt(questions, answers + [a], answers + [b], i);
  }

  method CountSelections(questions: seq<Question>, opts: map<string, Place>, i: nat, a: Answer,
                         before: seq<QuestionResult>, ghost answers: seq<Answer>)
    returns (results: seq<QuestionResult>)
    requires Distinct(QuestionIds(questions)) && i < |questions| && questions[i].id == a.questionID
    requires opts == PlacesOf(i, OptionsOf(questions[i]))
    requires before == Rows(questions, answers + [a.(selectedOptions := [])])
    ensures results == Rows(questions, answers + [a])
  {
    results := before;
    var selected := a.selectedOptions;
    for s := 0 to |selected|
      invariant results == Rows(questions, answers + [a.(selectedOptions := selected[..s])])
    {
      var sel := selected[s];
      ghost var sofar := a.(selectedOptions := selected[..s]);
      assert selected[..s + 1] == selected[..s] + [sel];
      RowsOfOneMore(questions, answers, sofar, sel, i);
      RowOfOneMore(questions[i], answers, sofar, sel);
      hide Row, Distinct, ToInt32;
      if sel in opts {
        var place := opts[sel];
        var row := results[place.row];
        var o := row.options[place.option];
        results := results[place.row :=
          row.(options := row.options[place.option := o.(votes := ToInt32(o.votes + 1))])];
      }
    }
    assert a == a.(selectedOptions := selected[..|selected|]);
  }

  /** The body of the loop over the answers of a response. */
  method CountAnswer(questions: seq<Question>, byId: map<string, nat>, optIdx: map<string, map<string, Place>>,
                     a: Answer, before: seq<QuestionResult>, ghost answers: seq<Answer>)
    returns (results: seq<QuestionResult>)
    requires Distinct(QuestionIds(questions))
    requires byId == Index(QuestionIds(questions))
    requires optIdx == OptionIndex(questions, |questions|)
    requires before == Rows(questions, answers)
    ensures results == Rows(questions, answers + [a])
  {
    results := before;
    hide Row, OptionIndex, ToInt32, Distinct;
    if a.questionID !in byId {
      RowsOfUnknownQuestion(questions, answers, a);
      return;
    }
    var i := byId[a.questionID];
    ghost var bare := a.(selectedOptions := []);
    assert questions[i].id == QuestionIds(questions)[i];
    RowsOfBareAnswer(questions, answers, bare, i);
    results := results[i := results[i].(responses := ToInt32(results[i].responses + 1))];
    OptionIndexAt(questions, |questions|, i);
    if a.questionID in optIdx {
      results := CountSelections(questions, optIdx[a.questionID], i, a, results, answers);
    } else {
      RowWithoutOptions(questions[i], answers, a);
      forall k | 0 <= k < |questions| && k != i
        ensures Row(questions[k], answers + [a]) == Row(questions[k], answers + [bare])
      {
        DifferentIds(questions, k, i);
        RowOfBareAnswer(questions[k], answers, a);
        RowOfBareAnswer(questions[k], answers, bare);
      }
      RowsDifferAt(questions, answers + [bare], answers + [a], i);
    }
  }

  lemma RowWithoutOptions(q: Question, answers: seq<Answer>, a: Answer)
    requires OptionsOf(q) == []
    ensures Row(q, answers + [a]) == Row(q, answers + [a.(selectedOptions := [])])
  {
    AnswersToSnoc(q.id, answers, a);
    AnswersToSnoc(q.id, answers, a.(selectedOptions := []));
  }

  /** One more response contributes all its answers if it is counted, and nothing otherwise. */
  lemma PoolSnoc(pollName: string, responses: seq<PollResponse>, r: PollResponse)
    ensures Pool(pollName, responses + [r]) ==
            if CountedFor(pollName, r) then Pool(pollName, responses) + r.spec.answers else Pool(pollName, responses)
    ensures CountedResponses(pollName, responses + [r]) ==
            CountedResponses(pollName, responses) + if CountedFor(pollName, r) then 1 else 0
  {
    assert (responses + [r])[..|responses|] == responses;
  }

  method AggregateResults(pollName: string, spec: PollSpec, responses: seq<PollResponse>)
    returns (results: seq<QuestionResult>, total: Int32)
    requires UniqueIds(spec)
    ensures results == Rows(spec.questions, Pool(pollName, responses))
    ensures ResultIds(results) == QuestionIds(spec.questions)
    ensures |results| == |spec.questions|
    ensures forall i | 0 <= i < |results| ::
              OptionNames(results[i].options) ==
              var q := spec.questions[i];
              if q.qtype == Choice && q.choice.Some? then q.choice.value.options else []
    ensures total == ToInt32(CountedResponses(pollName, responses))
  {
    hide Rows, Row, OptionIndex, Distinct, OptionNames, QuestionIds, ResultIds;
    RowsListQuestions(spec.questions, Pool(pollName, responses));
    results := InitialResults(spec.questions);
    var byId, optIdx := IndexResults(spec.questions, results);
    total := 0;
    for i := 0 to |responses|
      invariant results == Rows(spec.questions, Pool(pollName, responses[..i]))
      invariant total == ToInt32(CountedResponses(pollName, responses[..i]))
    {
      var resp := responses[i];
      ghost var pool := Pool(pollName, responses[..i]);
      assert responses[..i + 1] == responses[..i] + [resp];
      PoolSnoc(pollName, responses[..i], resp);
      if resp.status.phase != ResponseAccepted {
        continue;
      }
      if resp.spec.pollRef != pollName {
        continue;
      }
      WrapOnceOrTwice(CountedResponses(pollName, responses[..i]), 1);
      total := ToInt32(total + 1);
      var answers := resp.spec.answers;
      assert pool + answers[..0] == pool;
      for k := 0 to |answers|
        invariant results == Rows(spec.questions, pool + answers[..k])
      {
        results := CountAnswer(spec.questions, byId, optIdx, answers[k], results, pool + answers[..k]);
        assert pool + answers[..k] + [answers[k]] == pool + answers[..k + 1];
      }
      assert answers[..|answers|] == answers;
    }
    assert responses[..|responses|] == responses;
  }
}
