/** When it is safe to skip writing the status of a Poll. */
module PollStatusLaws {
  import opened Model
  import opened Conditions
  import opened PollWebhook
  import opened Tally
  import opened PollController

  // ---------- What the comparison says in general ----------

  /** Keys are unique, as the schema demands of the three lists. */
  ghost predicate UniqueKeys(s: PollStatus) {
    && Distinct(ResultIds(s.results))
    && Distinct(ConditionTypes(s.conditions))
    && forall i | 0 <= i < |s.results| :: Distinct(OptionNames(s.results[i].options))
  }

  /** Equal up to the order of options. */
  ghost predicate SameRow(a: QuestionResult, b: QuestionResult) {
    a.questionID == b.questionID && a.responses == b.responses && Elements(a.options) == Elements(b.options)
  }

  ghost predicate SameRows(a: seq<QuestionResult>, b: seq<QuestionResult>) {
    && Elements(ResultIds(a)) == Elements(ResultIds(b))
    && forall i, j | 0 <= i < |a| && 0 <= j < |b| :: a[i].questionID == b[j].questionID ==> SameRow(a[i], b[j])
  }

  /** Equal up to order and transition times. */
  ghost predicate SameConditions(a: seq<Condition>, b: seq<Condition>) {
    && Elements(ConditionTypes(a)) == Elements(ConditionTypes(b))
    && forall i, j | 0 <= i < |a| && 0 <= j < |b| :: a[i].ctype == b[j].ctype ==> SameButTransition(a[i], b[j])
  }

  /** Equal up to the order of rows, options and conditions, and the transition times. */
  ghost predicate SameUpToOrder(a: PollStatus, b: PollStatus) {
    && a.phase == b.phase && a.totalResponses == b.totalResponses
    && a.openedAt == b.openedAt && a.closedAt == b.closedAt
    && SameRows(a.results, b.results)
    && SameConditions(a.conditions, b.conditions)
  }

  /** Rows of the same question have the same options. */
  ghost predicate OptionsAgree(a: seq<QuestionResult>, b: seq<QuestionResult>) {
    forall i, j | 0 <= i < |a| && 0 <= j < |b| ::
      a[i].questionID == b[j].questionID ==>
      Elements(OptionNames(a[i].options)) == Elements(OptionNames(b[j].options))
  }

  lemma DistinctFromNames(options: seq<OptionResult>)
    requires Distinct(OptionNames(options))
    ensures Distinct(options)
  {
    assert forall i | 0 <= i < |options| :: OptionNames(options)[i] == options[i].option;
  }

  /** With unique names, the votes read for an option of the list are its own. */
  lemma VotesReadAt(options: seq<OptionResult>, j: nat)
    requires Distinct(OptionNames(options)) && j < |options|
    ensures VotesRead(options, options[j].option) == options[j].votes
  {
    IndexOfDistinct(OptionNames(options), j);
  }

  /** The vote comparison together with equal sets of names is equality of the option rows. */
  lemma SameVotesMeans(a: seq<OptionResult>, b: seq<OptionResult>)
    requires Distinct(OptionNames(a)) && Distinct(OptionNames(b))
    ensures SameVotes(a, b) && Elements(OptionNames(a)) == Elements(OptionNames(b)) <==> Elements(a) == Elements(b)
  {
    DistinctFromNames(a);
    DistinctFromNames(b);
    DistinctCardinality(a);
    DistinctCardinality(b);
    if SameVotes(a, b) && Elements(OptionNames(a)) == Elements(OptionNames(b)) {
      forall o | o in Elements(b) ensures o in Elements(a) {
        var j :| 0 <= j < |b| && b[j] == o;
        assert OptionNames(b)[j] == o.option;
        assert o.option in Elements(OptionNames(a));
        var i :| 0 <= i < |a| && OptionNames(a)[i] == o.option;
        VotesReadAt(a, i);
        assert a[i] == o;
      }
      SubsetOfSameSize(Elements(b), Elements(a));
    }
    if Elements(a) == Elements(b) {
      NamesOfElements(a, b);
      NamesOfElements(b, a);
      forall j | 0 <= j < |b| ensures VotesRead(a, b[j].option) == b[j].votes {
        assert b[j] in Elements(a);
        var i :| 0 <= i < |a| && a[i] == b[j];
        VotesReadAt(a, i);
      }
    }
  }

  lemma NamesOfElements(a: seq<OptionResult>, b: seq<OptionResult>)
    requires Elements(a) == Elements(b)
    ensures Elements(OptionNames(a)) <= Elements(OptionNames(b))
  {
    forall x | x in Elements(OptionNames(a)) ensures x in Elements(OptionNames(b)) {
      var i :| 0 <= i < |a| && OptionNames(a)[i] == x;
      assert a[i] in Elements(b);
      var j :| 0 <= j < |b| && b[j] == a[i];
      assert OptionNames(b)[j] == x;
    }
  }

  /** Keys of `b` that all occur in the equally long `a` are all the keys of `a`: the pigeonhole step. */
  lemma SameKeys<K>(a: seq<K>, b: seq<K>)
    requires Distinct(a) && Distinct(b) && |a| == |b|
    requires forall k | k in b :: k in a
    ensures Elements(a) == Elements(b)
  {
    DistinctCardinality(a);
    DistinctCardinality(b);
    SubsetOfSameSize(Elements(b), Elements(a));
  }

  lemma SameSize<K>(a: seq<K>, b: seq<K>)
    requires Distinct(a) && Distinct(b) && Elements(a) == Elements(b)
    ensures |a| == |b|
  {
    DistinctCardinality(a);
    DistinctCardinality(b);
  }

  /** The row of `a` for `b`'s question, found by id, compares equal exactly when all rows for it do. */
  lemma HasRowMeans(a: seq<QuestionResult>, row: QuestionResult, i: nat)
    requires Distinct(ResultIds(a)) && i < |a| && a[i].questionID == row.questionID
    requires Distinct(OptionNames(a[i].options)) && Distinct(OptionNames(row.options))
    ensures HasRow(a, row) && Elements(OptionNames(a[i].options)) == Elements(OptionNames(row.options))
       <==> SameRow(a[i], row)
  {
    IndexOfDistinct(ResultIds(a), i);
    assert ResultIds(a)[i] == row.questionID;
    SameVotesMeans(a[i].options, row.options);
    hide SameVotes, Distinct, OptionNames, Elements;
  }

  lemma RowsEqualMeans(a: seq<QuestionResult>, b: seq<QuestionResult>)
    requires Distinct(ResultIds(a)) && Distinct(ResultIds(b))
    requires forall i | 0 <= i < |a| :: Distinct(OptionNames(a[i].options))
    requires forall i | 0 <= i < |b| :: Distinct(OptionNames(b[i].options))
    ensures RowsEqual(a, b) && OptionsAgree(a, b) <==> SameRows(a, b)
  {
    hide HasRow, SameRow;
    forall i, j | 0 <= i < |a| && 0 <= j < |b| && a[i].questionID == b[j].questionID
      ensures HasRow(a, b[j]) && Elements(OptionNames(a[i].options)) == Elements(OptionNames(b[j].options))
         <==> SameRow(a[i], b[j])
    {
      HasRowMeans(a, b[j], i);
    }
    if RowsEqual(a, b) {
      forall id | id in ResultIds(b) ensures id in ResultIds(a) {
        var j :| 0 <= j < |b| && ResultIds(b)[j] == id;
        RowExists(a, b[j]);
      }
      SameKeys(ResultIds(a), ResultIds(b));
    }
    if SameRows(a, b) {
      SameSize(ResultIds(a), ResultIds(b));
      forall j | 0 <= j < |b| ensures HasRow(a, b[j]) {
        assert ResultIds(b)[j] in Elements(ResultIds(a));
        var i :| 0 <= i < |a| && ResultIds(a)[i] == b[j].questionID;
        assert a[i].questionID == b[j].questionID;
      }
    }
  }

  lemma RowExists(a: seq<QuestionResult>, row: QuestionResult)
    requires HasRow(a, row)
    ensures row.questionID in ResultIds(a)
  {
  }

  lemma ConditionsMatchMeans(a: seq<Condition>, b: seq<Condition>)
    requires Distinct(ConditionTypes(a)) && Distinct(ConditionTypes(b))
    ensures ConditionsMatch(a, b) <==> SameConditions(a, b)
  {
    hide HasMatch, SameButTransition;
    forall i, j | 0 <= i < |a| && 0 <= j < |b| && a[i].ctype == b[j].ctype
      ensures HasMatch(a, b[j]) <==> SameButTransition(a[i], b[j])
    {
      HasMatchMeans(a, b[j], i);
    }
    if ConditionsMatch(a, b) {
      forall t | t in ConditionTypes(b) ensures t in ConditionTypes(a) {
        var j :| 0 <= j < |b| && ConditionTypes(b)[j] == t;
        MatchExists(a, b[j]);
      }
      SameKeys(ConditionTypes(a), ConditionTypes(b));
    }
    if SameConditions(a, b) {
      SameSize(ConditionTypes(a), ConditionTypes(b));
      forall j | 0 <= j < |b| ensures HasMatch(a, b[j]) {
        assert ConditionTypes(b)[j] in Elements(ConditionTypes(a));
        var i :| 0 <= i < |a| && ConditionTypes(a)[i] == b[j].ctype;
        assert a[i].ctype == b[j].ctype;
      }
    }
  }

  lemma HasMatchMeans(a: seq<Condition>, c: Condition, i: nat)
    requires Distinct(ConditionTypes(a)) && i < |a| && a[i].ctype == c.ctype
    ensures HasMatch(a, c) <==> SameButTransition(a[i], c)
  {
    IndexOfDistinct(ConditionTypes(a), i);
    assert ConditionTypes(a)[i] == c.ctype;
  }

  lemma MatchExists(a: seq<Condition>, c: Condition)
    requires HasMatch(a, c)
    ensures c.ctype in ConditionTypes(a)
  {
  }

  /**
   On statuses with unique keys the comparison decides equality up to order and
   transition times, exactly when rows of the same question have the same options.
   */
  lemma StatusEqualMeans(a: PollStatus, b: PollStatus)
    requires UniqueKeys(a) && UniqueKeys(b)
    ensures StatusEqual(a, b) && OptionsAgree(a.results, b.results) <==> SameUpToOrder(a, b)
  {
    RowsEqualMeans(a.results, b.results);
    ConditionsMatchMeans(a.conditions, b.conditions);
  }

  /** Without that, an option missing on the left reads as 0 votes: the comparison is not even symmetric. */
  lemma StatusEqualIsNotSymmetric(id: string, x: string, y: string)
    requires x != y
    ensures var a := EMPTY_POLL_STATUS.(results := [QuestionResult(id, [OptionResult(x, 1)], 1)]);
            var b := EMPTY_POLL_STATUS.(results := [QuestionResult(id, [OptionResult(y, 0)], 1)]);
            && UniqueKeys(a) && UniqueKeys(b)
            && StatusEqual(a, b) && !StatusEqual(b, a) && !SameUpToOrder(a, b)
  {
    var ra, rb := [QuestionResult(id, [OptionResult(x, 1)], 1)], [QuestionResult(id, [OptionResult(y, 0)], 1)];
    assert ResultIds(ra) == [id] == ResultIds(rb);
    assert OptionNames(ra[0].options) == [x] && OptionNames(rb[0].options) == [y];
    IndexOfDistinct([id], 0);
    IndexOfDistinct([x], 0);
    IndexOfDistinct([y], 0);
    assert HasRow(ra, rb[0]);
    assert VotesRead(rb[0].options, x) == 0;
    assert !SameVotes(rb[0].options, ra[0].options);
    assert !HasRow(rb, ra[0]);
    MatchesItself([]);
    StatusEqualMeans(EMPTY_POLL_STATUS.(results := rb), EMPTY_POLL_STATUS.(results := ra));
    assert OptionResult(x, 1) in Elements(ra[0].options) && OptionResult(x, 1) !in Elements(rb[0].options);
  }

  // ---------- Rows that have the shape of a spec ----------

  /** One row per question and one per option, in order, whatever the numbers. */
  ghost predicate ShapedLike(results: seq<QuestionResult>, questions: seq<Question>) {
    && ResultIds(results) == QuestionIds(questions)
    && forall i | 0 <= i < |results| :: OptionNames(results[i].options) == OptionsOf(questions[i])
  }

  lemma SameVotesSameNames(a: seq<OptionResult>, b: seq<OptionResult>)
    requires OptionNames(a) == OptionNames(b) && Distinct(OptionNames(a))
    ensures SameVotes(a, b) <==> a == b
  {
    forall j | 0 <= j < |a| ensures VotesRead(a, b[j].option) == a[j].votes && a[j].option == b[j].option {
      assert OptionNames(a)[j] == OptionNames(b)[j];
      VotesReadAt(a, j);
    }
  }

  /** Rows of the same shape that compare equal are identical: names, order and numbers. */
  lemma RowsEqualSameShape(a: seq<QuestionResult>, b: seq<QuestionResult>, spec: PollSpec)
    requires AdmittedPoll(spec) && ShapedLike(a, spec.questions) && ShapedLike(b, spec.questions)
    ensures RowsEqual(a, b) <==> a == b
  {
    hide HasRow;
    assert |a| == |b| == |spec.questions|;
    forall i | 0 <= i < |a| ensures HasRow(a, b[i]) <==> a[i] == b[i] {
      RowSameShape(a, b, spec, i);
    }
  }

  lemma RowSameShape(a: seq<QuestionResult>, b: seq<QuestionResult>, spec: PollSpec, i: nat)
    requires AdmittedPoll(spec) && ShapedLike(a, spec.questions) && ShapedLike(b, spec.questions)
    requires i < |a| && |a| == |b| == |spec.questions|
    ensures HasRow(a, b[i]) <==> a[i] == b[i]
  {
    assert ResultIds(a)[i] == ResultIds(b)[i];
    IndexOfDistinct(ResultIds(a), i);
    assert WellFormedQuestion(spec.questions[i]);
    SameVotesSameNames(a[i].options, b[i].options);
  }

  // ---------- Statuses that the reconciler writes ----------

  /** The status was written by a reconcile that observed `generation`. */
  ghost predicate RecordedOn(status: PollStatus, generation: nat) {
    && |status.conditions| == 1
    && status.conditions[0] == ReadyCondition(status.phase, generation, status.conditions[0].lastTransitionTime)
    && (status.phase == PollOpen || status.phase == PollClosed)
    && status.openedAt.Some?
    && (status.closedAt.Some? <==> status.phase == PollClosed)
  }

  /** Never reconciled, or recorded on some generation; on the current one, with the shape of the current spec. */
  ghost predicate Coherent(status: PollStatus, spec: PollSpec, generation: nat) {
    || status == EMPTY_POLL_STATUS
    || (|status.conditions| == 1
        && RecordedOn(status, status.conditions[0].observedGeneration)
        && status.conditions[0].observedGeneration <= generation
        && (status.conditions[0].observedGeneration == generation ==> ShapedLike(status.results, spec.questions)))
  }

  /** The status already says what a reconcile would say, whenever it happens. */
  ghost predicate Settled(status: PollStatus, closed: bool, generation: nat, rows: seq<QuestionResult>, total: Int32) {
    && RecordedOn(status, generation)
    && status.phase == (if closed then PollClosed else PollOpen)
    && status.results == rows
    && status.totalResponses == total
  }

  lemma DesiredIsSettled(stored: PollStatus, spec: PollSpec, closed: bool, generation: nat,
                         rows: seq<QuestionResult>, total: Int32, now: Time)
    requires Coherent(stored, spec, generation)
    ensures Settled(DesiredStatus(stored, closed, generation, rows, total, now), closed, generation, rows, total)
  {
  }

  lemma SettledIsFixpoint(stored: PollStatus, closed: bool, generation: nat,
                          rows: seq<QuestionResult>, total: Int32, now: Time)
    requires Settled(stored, closed, generation, rows, total)
    ensures DesiredStatus(stored, closed, generation, rows, total, now) == stored
  {
    assert DesiredStatus(stored, closed, generation, rows, total, now).conditions == stored.conditions;
  }

  /**
   In every state a run can reach, a skipped write loses nothing: the comparison
   says equal exactly when the status is settled, and then stored and desired
   status are identical, down to names, order and transition times.
   */
  lemma SkippedWriteLosesNothing(stored: PollStatus, spec: PollSpec, closed: bool, generation: nat,
                                 rows: seq<QuestionResult>, total: Int32, now: Time)
    requires AdmittedPoll(spec) && Coherent(stored, spec, generation) && ShapedLike(rows, spec.questions)
    ensures var desired := DesiredStatus(stored, closed, generation, rows, total, now);
            && (StatusEqual(stored, desired) <==> stored == desired)
            && (StatusEqual(stored, desired) <==> Settled(stored, closed, generation, rows, total))
  {
    hide AdmittedPoll, ShapedLike, RowsEqual, HasMatch;
    var desired := DesiredStatus(stored, closed, generation, rows, total, now);
    DesiredIsSettled(stored, spec, closed, generation, rows, total, now);
    if StatusEqual(stored, desired) {
      MatchAfterSet(stored.conditions, ReadyCondition(desired.phase, generation, now));
      assert RecordedOn(stored, generation);
      RowsEqualSameShape(stored.results, rows, spec);
    }
    if Settled(stored, closed, generation, rows, total) {
      SettledIsFixpoint(stored, closed, generation, rows, total, now);
      RowsEqualSameShape(rows, rows, spec);
      MatchesItself(stored.conditions);
    }
  }
}
