/** What the tallies mean: sums, order, bounds and conservation of votes. */
module TallyLaws {
  import opened Model
  import opened PollWebhook
  import opened PollResponseWebhook
  import opened PollResponseController
  import opened Tally

  // ---------- Tallies of concatenated lists add up ----------

  lemma {:induction false} AnswersToConcat(id: string, xs: seq<Answer>, ys: seq<Answer>)
    ensures AnswersTo(id, xs + ys) == AnswersTo(id, xs) + AnswersTo(id, ys)
  {
    if ys == [] {
      assert xs + ys == xs;
    } else {
      var n := |ys| - 1;
      assert xs + ys == xs + ys[..n] + [ys[n]] && ys == ys[..n] + [ys[n]];
      AnswersToConcat(id, xs, ys[..n]);
      AnswersToSnoc(id, xs + ys[..n], ys[n]);
    }
  }

  lemma {:induction false} VotesForConcat(id: string, o: string, xs: seq<Answer>, ys: seq<Answer>)
    ensures VotesFor(id, o, xs + ys) == VotesFor(id, o, xs) + VotesFor(id, o, ys)
  {
    if ys == [] {
      assert xs + ys == xs;
    } else {
      var n := |ys| - 1;
      assert xs + ys == xs + ys[..n] + [ys[n]] && ys == ys[..n] + [ys[n]];
      VotesForConcat(id, o, xs, ys[..n]);
      VotesForSnoc(id, o, xs + ys[..n], ys[n]);
    }
  }

  lemma {:induction false} PoolConcat(pollName: string, rs: seq<PollResponse>, ss: seq<PollResponse>)
    ensures Pool(pollName, rs + ss) == Pool(pollName, rs) + Pool(pollName, ss)
    ensures CountedResponses(pollName, rs + ss) == CountedResponses(pollName, rs) + CountedResponses(pollName, ss)
  {
    if ss == [] {
      assert rs + ss == rs;
    } else {
      var n := |ss| - 1;
      assert rs + ss == rs + ss[..n] + [ss[n]] && ss == ss[..n] + [ss[n]];
      PoolConcat(pollName, rs, ss[..n]);
      PoolSnoc(pollName, rs + ss[..n], ss[n]);
      PoolSnoc(pollName, ss[..n], ss[n]);
    }
  }

  /** The sum of two rows of the same question, with the wrap-around of the counters. */
  function AddRows(a: QuestionResult, b: QuestionResult): QuestionResult
    requires |a.options| == |b.options|
  {
    QuestionResult(a.questionID,
      seq(|a.options|, j requires 0 <= j < |a.options| =>
        OptionResult(a.options[j].option, ToInt32(a.options[j].votes + b.options[j].votes))),
      ToInt32(a.responses + b.responses))
  }

  lemma WrapSum(x: int, y: int)
    ensures ToInt32(ToInt32(x) + ToInt32(y)) == ToInt32(x + y)
  {
    WrapOnceOrTwice(x, ToInt32(y));
    WrapOnceOrTwice(y, x);
  }

  lemma NothingIsZero()
    ensures ToInt32(0) == 0
  {
  }

  lemma OptionRowOfConcat(q: Question, j: nat, xs: seq<Answer>, ys: seq<Answer>)
    requires j < |OptionsOf(q)|
    ensures OptionRow(q, j, xs + ys) ==
            OptionResult(OptionsOf(q)[j], ToInt32(OptionRow(q, j, xs).votes + OptionRow(q, j, ys).votes))
  {
    hide VotesFor, OptionsOf, Index, ToInt32;
    VotesForConcat(q.id, OptionsOf(q)[j], xs, ys);
    WrapSum(VotesFor(q.id, OptionsOf(q)[j], xs), VotesFor(q.id, OptionsOf(q)[j], ys));
    NothingIsZero();
  }

  /** Aggregating two lists together is aggregating each and adding the rows up. */
  lemma RowOfConcat(q: Question, xs: seq<Answer>, ys: seq<Answer>)
    ensures Row(q, xs + ys) == AddRows(Row(q, xs), Row(q, ys))
  {
    hide ToInt32, AnswersTo, OptionsOf, OptionRow;
    AnswersToConcat(q.id, xs, ys);
    WrapSum(AnswersTo(q.id, xs), AnswersTo(q.id, ys));
    var sum := AddRows(Row(q, xs), Row(q, ys));
    forall j | 0 <= j < |OptionsOf(q)| ensures Row(q, xs + ys).options[j] == sum.options[j] {
      OptionRowOfConcat(q, j, xs, ys);
      assert Row(q, xs).options[j].option == OptionsOf(q)[j] by { OptionRowNames(q, j, xs); }
    }
    assert Row(q, xs + ys).options == sum.options;
  }

  lemma OptionRowNames(q: Question, j: nat, xs: seq<Answer>)
    requires j < |OptionsOf(q)|
    ensures OptionRow(q, j, xs).option == OptionsOf(q)[j]
  {
  }

  /** The sum of two tables of the same questions. */
  function AddTables(a: seq<QuestionResult>, b: seq<QuestionResult>): seq<QuestionResult>
    requires |a| == |b| && forall i | 0 <= i < |a| :: |a[i].options| == |b[i].options|
  {
    seq(|a|, i requires 0 <= i < |a| => AddRows(a[i], b[i]))
  }

  /** Aggregating the union of two lists of responses is aggregating each, and adding up the tables and the totals. */
  lemma ResultsOfConcat(pollName: string, questions: seq<Question>, rs: seq<PollResponse>, ss: seq<PollResponse>)
    ensures Rows(questions, Pool(pollName, rs + ss)) ==
            AddTables(Rows(questions, Pool(pollName, rs)), Rows(questions, Pool(pollName, ss)))
    ensures ToInt32(CountedResponses(pollName, rs + ss)) ==
            ToInt32(ToInt32(CountedResponses(pollName, rs)) + ToInt32(CountedResponses(pollName, ss)))
  {
    hide Pool, ToInt32, AddRows, OptionRow, AnswersTo;
    PoolConcat(pollName, rs, ss);
    WrapSum(CountedResponses(pollName, rs), CountedResponses(pollName, ss));
    forall i | 0 <= i < |questions|
      ensures Row(questions[i], Pool(pollName, rs + ss)) ==
              AddRows(Row(questions[i], Pool(pollName, rs)), Row(questions[i], Pool(pollName, ss)))
    {
      RowOfConcat(questions[i], Pool(pollName, rs), Pool(pollName, ss));
    }
  }

  // ---------- The order of the list does not matter ----------

  /** The place at which a response stands in the list makes no difference. */
  lemma TallyWithout(pollName: string, ss: seq<PollResponse>, k: nat, id: string, o: string)
    requires k < |ss|
    ensures var rest, one := ss[..k] + ss[k + 1..], [ss[k]];
            && AnswersTo(id, Pool(pollName, ss)) ==
               AnswersTo(id, Pool(pollName, rest)) + AnswersTo(id, Pool(pollName, one))
            && VotesFor(id, o, Pool(pollName, ss)) ==
               VotesFor(id, o, Pool(pollName, rest)) + VotesFor(id, o, Pool(pollName, one))
            && CountedResponses(pollName, ss) == CountedResponses(pollName, rest) + CountedResponses(pollName, one)
  {
    hide *;
    assert ss == ss[..k] + [ss[k]] + ss[k + 1..];
    TallyOfSplit(pollName, ss[..k], ss[k + 1..], id, o);
    TallyOfSplit(pollName, ss[..k] + [ss[k]], ss[k + 1..], id, o);
    TallyOfSplit(pollName, ss[..k], [ss[k]], id, o);
  }

  lemma MultisetWithout<T>(s: seq<T>, k: nat)
    requires k < |s|
    ensures multiset(s[..k] + s[k + 1..]) == multiset(s) - multiset{s[k]}
  {
    assert s == s[..k] + [s[k]] + s[k + 1..];
  }

  lemma {:induction false} PermutedTally(pollName: string, rs: seq<PollResponse>, ss: seq<PollResponse>,
                                         id: string, o: string)
    requires multiset(rs) == multiset(ss)
    ensures AnswersTo(id, Pool(pollName, rs)) == AnswersTo(id, Pool(pollName, ss))
    ensures VotesFor(id, o, Pool(pollName, rs)) == VotesFor(id, o, Pool(pollName, ss))
    ensures CountedResponses(pollName, rs) == CountedResponses(pollName, ss)
    decreases |rs|
  {
    hide *;
    if rs == [] {
      assert |multiset(ss)| == 0;
    } else {
      var n := |rs| - 1;
      assert rs[..n] + rs[n + 1..] == rs[..n];
      assert rs[n] in multiset(ss);
      var k :| 0 <= k < |ss| && ss[k] == rs[n];
      MultisetWithout(rs, n);
      MultisetWithout(ss, k);
      PermutedTally(pollName, rs[..n], ss[..k] + ss[k + 1..], id, o);
      TallyWithout(pollName, rs, n, id, o);
      TallyWithout(pollName, ss, k, id, o);
    }
  }

  lemma TallyOfSplit(pollName: string, rs: seq<PollResponse>, ss: seq<PollResponse>, id: string, o: string)
    ensures AnswersTo(id, Pool(pollName, rs + ss)) ==
            AnswersTo(id, Pool(pollName, rs)) + AnswersTo(id, Pool(pollName, ss))
    ensures VotesFor(id, o, Pool(pollName, rs + ss)) ==
            VotesFor(id, o, Pool(pollName, rs)) + VotesFor(id, o, Pool(pollName, ss))
    ensures CountedResponses(pollName, rs + ss) == CountedResponses(pollName, rs) + CountedResponses(pollName, ss)
  {
    PoolConcat(pollName, rs, ss);
    AnswersToConcat(id, Pool(pollName, rs), Pool(pollName, ss));
    VotesForConcat(id, o, Pool(pollName, rs), Pool(pollName, ss));
  }

  /** The results do not depend on the order in which the responses are listed. */
  lemma OrderDoesNotMatter(pollName: string, questions: seq<Question>, rs: seq<PollResponse>, ss: seq<PollResponse>)
    requires multiset(rs) == multiset(ss)
    ensures Rows(questions, Pool(pollName, rs)) == Rows(questions, Pool(pollName, ss))
    ensures CountedResponses(pollName, rs) == CountedResponses(pollName, ss)
  {
    PermutedTally(pollName, rs, ss, "", "");
    var xs, ys := Pool(pollName, rs), Pool(pollName, ss);
    forall q: Question ensures Row(q, xs) == Row(q, ys) {
      PermutedTally(pollName, rs, ss, q.id, "");
      forall j | 0 <= j < |OptionsOf(q)| ensures OptionRow(q, j, xs) == OptionRow(q, j, ys) {
        PermutedTally(pollName, rs, ss, q.id, OptionsOf(q)[j]);
      }
    }
    hide Row;
  }

  // ---------- Bounds of the counters ----------

  ghost predicate AllAdmitted(rs: seq<PollResponse>) {
    forall i | 0 <= i < |rs| :: AdmittedResponse(rs[i].spec)
  }

  lemma {:induction false} OneAnswerEach(id: string, answers: seq<Answer>)
    requires Distinct(AnswerIds(answers))
    ensures AnswersTo(id, answers) == if id in AnswerIds(answers) then 1 else 0
  {
    if answers != [] {
      var n := |answers| - 1;
      var ids := AnswerIds(answers);
      assert AnswerIds(answers[..n]) == ids[..n] && ids == ids[..n] + [answers[n].questionID];
      OneAnswerEach(id, answers[..n]);
      assert forall k | 0 <= k < n :: ids[k] != ids[n];
      assert id in ids <==> id in ids[..n] || id == ids[n];
    }
  }

  lemma {:induction false} VotesWithinAnswers(id: string, o: string, answers: seq<Answer>)
    requires forall i | 0 <= i < |answers| :: Distinct(answers[i].selectedOptions)
    ensures VotesFor(id, o, answers) <= AnswersTo(id, answers)
  {
    if answers != [] {
      var n := |answers| - 1;
      VotesWithinAnswers(id, o, answers[..n]);
      AtMostOnce(answers[n].selectedOptions, o);
    }
  }

  lemma {:induction false} AtMostOnce(s: seq<string>, o: string)
    requires Distinct(s)
    ensures multiset(s)[o] == if o in s then 1 else 0
  {
    if s != [] {
      var n := |s| - 1;
      assert s == s[..n] + [s[n]];
      AtMostOnce(s[..n], o);
    }
  }

  /** Whatever the spec looks like by now: votes <= responses <= total <= the number of responses. */
  lemma {:induction false} CounterBounds(pollName: string, rs: seq<PollResponse>, id: string, o: string)
    requires AllAdmitted(rs)
    ensures VotesFor(id, o, Pool(pollName, rs)) <= AnswersTo(id, Pool(pollName, rs))
         <= CountedResponses(pollName, rs) <= |rs|
  {
    hide WellFormedAnswer, SchemaResponse;
    if rs != [] {
      var n := |rs| - 1;
      var r := rs[n];
      assert rs == rs[..n] + [r];
      CounterBounds(pollName, rs[..n], id, o);
      PoolSnoc(pollName, rs[..n], r);
      if CountedFor(pollName, r) {
        BoundsOfOne(r.spec, id, o);
        AnswersToConcat(id, Pool(pollName, rs[..n]), r.spec.answers);
        VotesForConcat(id, o, Pool(pollName, rs[..n]), r.spec.answers);
      }
    }
  }

  lemma BoundsOfOne(spec: ResponseSpec, id: string, o: string)
    requires AdmittedResponse(spec)
    ensures VotesFor(id, o, spec.answers) <= AnswersTo(id, spec.answers) <= 1
  {
    OneAnswerEach(id, spec.answers);
    forall i | 0 <= i < |spec.answers| ensures Distinct(spec.answers[i].selectedOptions) {
      assert WellFormedAnswer(spec.answers[i]);
    }
    VotesWithinAnswers(id, o, spec.answers);
  }

  /** Below 2^31 responses the int32 counters of the status are exact. */
  lemma CountersAreExact(pollName: string, rs: seq<PollResponse>, q: Question, j: nat)
    requires AllAdmitted(rs) && |rs| < 0x8000_0000
    requires WellFormedQuestion(q) && j < |OptionsOf(q)|
    ensures var pool := Pool(pollName, rs);
            && Row(q, pool).responses == AnswersTo(q.id, pool)
            && Row(q, pool).options[j].option == OptionsOf(q)[j]
            && Row(q, pool).options[j].votes == VotesFor(q.id, OptionsOf(q)[j], pool)
            && ToInt32(CountedResponses(pollName, rs)) == CountedResponses(pollName, rs)
  {
    hide AllAdmitted, Pool, AnswersTo, VotesFor, CountedResponses, Index;
    CounterBounds(pollName, rs, q.id, OptionsOf(q)[j]);
    IndexOfDistinct(OptionsOf(q), j);
  }

  // ---------- Conservation of votes ----------

  /** All the selections made in answers to question `id`. */
  function SelectionsMade(id: string, answers: seq<Answer>): nat {
    if answers == [] then 0
    else
      var n := |answers| - 1;
      SelectionsMade(id, answers[..n]) + if answers[n].questionID == id then |answers[n].selectedOptions| else 0
  }

  /** The votes of the first `n` option rows together. */
  function VotesOfRows(options: seq<OptionResult>, n: nat): int
    requires n <= |options|
  {
    if n == 0 then 0 else VotesOfRows(options, n - 1) + options[n - 1].votes
  }

  function VotesOfOptions(id: string, options: seq<string>, n: nat, answers: seq<Answer>): nat
    requires n <= |options|
  {
    if n == 0 then 0 else VotesOfOptions(id, options, n - 1, answers) + VotesFor(id, options[n - 1], answers)
  }

  function Hits(options: seq<string>, n: nat, selected: seq<string>): nat
    requires n <= |options|
  {
    if n == 0 then 0 else Hits(options, n - 1, selected) + multiset(selected)[options[n - 1]]
  }

  lemma {:induction false} HitsOfOneMore(options: seq<string>, n: nat, selected: seq<string>, x: string)
    requires n <= |options| && Distinct(options)
    ensures Hits(options, n, selected + [x]) == Hits(options, n, selected) + if x in options[..n] then 1 else 0
  {
    if n > 0 {
      HitsOfOneMore(options, n - 1, selected, x);
      assert multiset(selected + [x]) == multiset(selected) + multiset{x};
      assert options[..n] == options[..n - 1] + [options[n - 1]];
    }
  }

  /** Selections among distinct options all hit exactly one of them. */
  lemma {:induction false} EverySelectionHits(options: seq<string>, selected: seq<string>)
    requires Distinct(options) && forall o | o in selected :: o in options
    ensures Hits(options, |options|, selected) == |selected|
    decreases |selected|
  {
    if selected == [] {
      NoHits(options, |options|);
    } else {
      var n := |selected| - 1;
      assert selected == selected[..n] + [selected[n]];
      EverySelectionHits(options, selected[..n]);
      HitsOfOneMore(options, |options|, selected[..n], selected[n]);
      assert options[..|options|] == options;
    }
  }

  lemma {:induction false} NoHits(options: seq<string>, n: nat)
    requires n <= |options|
    ensures Hits(options, n, []) == 0
  {
    if n > 0 {
      NoHits(options, n - 1);
    }
  }

  lemma {:induction false} VotesOfOptionsSnoc(id: string, options: seq<string>, n: nat, answers: seq<Answer>, a: Answer)
    requires n <= |options|
    ensures VotesOfOptions(id, options, n, answers + [a]) ==
            VotesOfOptions(id, options, n, answers)
            + if a.questionID == id then Hits(options, n, a.selectedOptions) else 0
  {
    if n > 0 {
      VotesOfOptionsSnoc(id, options, n - 1, answers, a);
      VotesForSnoc(id, options[n - 1], answers, a);
    }
  }

  /** The answers to `q` all fit it. */
  ghost predicate AnswersFit(q: Question, answers: seq<Answer>) {
    forall i | 0 <= i < |answers| && answers[i].questionID == q.id :: AnswerFits(q, answers[i])
  }

  lemma {:induction false} VotesAreSelections(q: Question, answers: seq<Answer>)
    requires WellFormedQuestion(q) && q.qtype == Choice && AnswersFit(q, answers)
    ensures VotesOfOptions(q.id, OptionsOf(q), |OptionsOf(q)|, answers) == SelectionsMade(q.id, answers)
  {
    var options := OptionsOf(q);
    if answers == [] {
      NoVotes(q.id, options, |options|);
    } else {
      var n := |answers| - 1;
      assert answers == answers[..n] + [answers[n]];
      VotesAreSelections(q, answers[..n]);
      VotesOfOptionsSnoc(q.id, options, |options|, answers[..n], answers[n]);
      if answers[n].questionID == q.id {
        EverySelectionHits(options, answers[n].selectedOptions);
      }
    }
  }

  lemma {:induction false} NoVotes(id: string, options: seq<string>, n: nat)
    requires n <= |options|
    ensures VotesOfOptions(id, options, n, []) == 0
  {
    if n > 0 {
      NoVotes(id, options, n - 1);
    }
  }

  /** One selection per answer for a single choice; up to one per option when several are allowed. */
  function SelectionCap(q: Question): nat
    requires q.choice.Some?
  {
    if q.choice.value.allowMultipleChoices then |OptionsOf(q)| else 1
  }

  lemma SelectionsOfOneAnswer(q: Question, a: Answer)
    requires WellFormedQuestion(q) && q.qtype == Choice && AnswerFits(q, a)
    ensures 1 <= |a.selectedOptions| <= SelectionCap(q)
  {
    DistinctCardinality(a.selectedOptions);
    DistinctCardinality(OptionsOf(q));
    SubsetSize(Elements(a.selectedOptions), Elements(OptionsOf(q)));
  }

  /** Between `n` answers of one selection each and `n` answers of `cap` selections each. */
  ghost predicate WithinBounds(n: int, sum: int, cap: nat) {
    n <= sum <= n * cap
  }

  lemma {:induction false} SelectionsPerAnswer(q: Question, answers: seq<Answer>)
    requires WellFormedQuestion(q) && q.qtype == Choice && AnswersFit(q, answers)
    ensures WithinBounds(AnswersTo(q.id, answers), SelectionsMade(q.id, answers), SelectionCap(q))
  {
    hide SelectionCap, AnswerFits;
    if answers != [] {
      var n := |answers| - 1;
      SelectionsPerAnswer(q, answers[..n]);
      if answers[n].questionID == q.id {
        SelectionsOfOneAnswer(q, answers[n]);
        var x, cap := AnswersTo(q.id, answers[..n]), SelectionCap(q);
        assert (x + 1) * cap == x * cap + cap;
      }
    }
  }

  lemma {:induction false} RowVotes(pollName: string, rs: seq<PollResponse>, q: Question, n: nat)
    requires AllAdmitted(rs) && |rs| < 0x8000_0000
    requires WellFormedQuestion(q) && n <= |OptionsOf(q)|
    ensures var pool := Pool(pollName, rs);
            VotesOfRows(Row(q, pool).options, n) == VotesOfOptions(q.id, OptionsOf(q), n, pool)
  {
    hide AllAdmitted, WellFormedQuestion, Pool, OptionsOf, VotesFor;
    if n > 0 {
      RowVotes(pollName, rs, q, n - 1);
      CountersAreExact(pollName, rs, q, n - 1);
    }
  }

  /**
   Conservation: when every counted response passes validation against the
   current spec, the votes of a Choice question sum to the selections made. For
   a single choice that is the number of its responses; otherwise it lies
   between that number and that number times the options.
   */
  lemma VotesAreConserved(pollName: string, rs: seq<PollResponse>, q: Question)
    requires AllAdmitted(rs) && |rs| < 0x8000_0000
    requires WellFormedQuestion(q) && q.qtype == Choice
    requires AnswersFit(q, Pool(pollName, rs))
    ensures VotesOfRows(Row(q, Pool(pollName, rs)).options, |Row(q, Pool(pollName, rs)).options|) ==
            SelectionsMade(q.id, Pool(pollName, rs))
    ensures Conserved(q, Row(q, Pool(pollName, rs)))
  {
    assert q.choice.Some?;
    hide AllAdmitted, AnswersFit, AnswersTo, VotesFor, VotesOfRows, VotesOfOptions, Pool;
    hide SelectionsMade, CountedResponses, OptionsOf, WithinBounds, Row, WellFormedQuestion, SelectionCap;
    var pool := Pool(pollName, rs);
    VotesAreSelections(q, pool);
    SelectionsPerAnswer(q, pool);
    RowVotes(pollName, rs, q, |OptionsOf(q)|);
    RowSize(q, pool);
    ResponsesAreExact(pollName, rs, q);
    CapOfSingleChoice(q, SelectionsMade(q.id, pool), AnswersTo(q.id, pool));
  }

  /** The votes of the row lie within the bounds; for a single choice they sum to its responses. */
  ghost predicate Conserved(q: Question, row: QuestionResult)
    requires q.choice.Some?
  {
    var sum := VotesOfRows(row.options, |row.options|);
    && WithinBounds(row.responses, sum, SelectionCap(q))
    && (!q.choice.value.allowMultipleChoices ==> sum == row.responses)
  }

  lemma CapOfSingleChoice(q: Question, sum: int, n: int)
    requires q.choice.Some? && WithinBounds(n, sum, SelectionCap(q))
    ensures !q.choice.value.allowMultipleChoices ==> sum == n
  {
  }

  lemma ResponsesAreExact(pollName: string, rs: seq<PollResponse>, q: Question)
    requires AllAdmitted(rs) && |rs| < 0x8000_0000
    ensures Row(q, Pool(pollName, rs)).responses == AnswersTo(q.id, Pool(pollName, rs))
  {
    hide AllAdmitted, AnswersTo, VotesFor, Pool, CountedResponses, OptionsOf, OptionRow;
    CounterBounds(pollName, rs, q.id, "");
  }

  lemma RowSize(q: Question, answers: seq<Answer>)
    ensures |Row(q, answers).options| == |OptionsOf(q)|
  {
  }
}
