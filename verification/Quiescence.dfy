/** What the store says once nothing is left to do: the tallies are those of the valid responses. */
module Quiescence {
  import opened Model
  import opened PollWebhook
  import opened PollResponseWebhook
  import RC = PollResponseController
  import PL = PollStatusLaws
  import opened Tally
  import opened TallyLaws
  import opened StoreTally
  import opened Cluster
  import opened WakeUps

  /** Both queues are empty and no timer is due. */
  ghost predicate Quiet(c: State) {
    c.pollQueue == {} && c.responseQueue == {} && forall p | p in c.timers :: c.timers[p] > c.now
  }

  /** What validateResponse returns for the stored response now; a missing Poll is a rejection too. */
  ghost function VerdictNow(c: State, r: string): Option<ValidationError>
    requires r in c.responses
  {
    var resp := c.responses[r];
    var p := resp.spec.pollRef;
    if p !in c.polls then Some(NotFound(p))
    else RC.Verdict(c.polls[p].spec, resp.spec.answers, RC.ClosedAt(c.polls[p].spec, c.now))
  }

  /** The responses to `p` that pass validation now. */
  ghost function ValidResponses(c: State, p: string): set<string> {
    set r | r in c.responses && c.responses[r].spec.pollRef == p && VerdictNow(c, r) == None
  }

  ghost function ValidAnswering(c: State, p: string, id: string): set<string> {
    set r | r in ValidResponses(c, p) && id in AnswerIds(c.responses[r].spec.answers)
  }

  ghost function ValidChoosing(c: State, p: string, id: string, o: string): set<string> {
    set r | r in ValidResponses(c, p) && Chooses(c.responses[r].spec.answers, id, o)
  }

  lemma QuietIsSettled(c: State)
    requires Inv(c) && Quiet(c)
    ensures forall p | p in c.polls :: PollSettled(c, p, ClosedNow(c, p))
    ensures forall r | r in c.responses ::
              ResponseSettled(c.polls, c.responses[r], ClosedNow(c, c.responses[r].spec.pollRef))
  {
    hide PL.Settled, RC.Shows, PollOk, ResponseOk;
    forall p | p in c.polls ensures PollSettled(c, p, ClosedNow(c, p)) {
      assert PollAwake(c, p);
    }
    forall r | r in c.responses
      ensures ResponseSettled(c.polls, c.responses[r], ClosedNow(c, c.responses[r].spec.pollRef))
    {
      var p := c.responses[r].spec.pollRef;
      assert ResponseAwake(c, r);
      if ClosedNow(c, p) && MustRecordClosing(c.polls[p]) {
        UnrecordedClosingIsUnsettled(c, p);
      }
    }
  }

  /**
   A response has its Poll as owner. It is accepted, with its conditions, exactly
   when validation accepts it now; else it shows the reason.
   */
  lemma QuietResponse(c: State, r: string)
    requires Inv(c) && Quiet(c) && r in c.responses
    ensures var status, verdict := c.responses[r].status, VerdictNow(c, r);
            var p := c.responses[r].spec.pollRef;
            && (p in c.polls ==> c.responses[r].owner == Some(c.polls[p].uid))
            && |status.conditions| == 2
            && status.conditions[0].ctype == Validated && status.conditions[1].ctype == Counted
            && (status.phase == ResponseAccepted <==> verdict == None)
            && (status.conditions[0].status == ConditionTrue <==> verdict == None)
            && (status.conditions[1].status == ConditionTrue <==> verdict == None)
            && (status.acceptedAt.Some? <==> verdict == None)
            && status.conditions[0].observedGeneration == c.responses[r].generation
            && status.conditions[1].observedGeneration == c.responses[r].generation
            && status.observedPollGeneration == (if p in c.polls then c.polls[p].generation else 0)
            && (verdict.None? ==>
                  && status.conditions[0].reason == status.conditions[1].reason == Accepted
                  && status.conditions[0].message == PassedValidation
                  && status.conditions[1].message == IncludedInResults)
            && (verdict.Some? ==>
                  && status.phase == ResponseRejected
                  && status.conditions[0].reason == status.conditions[1].reason == verdict.value.reason
                  && status.conditions[0].message == verdict.value.message
                  && status.conditions[1].message == RejectedNotCounted)
            && (p !in c.polls ==> verdict == Some(ValidationError(PollNotFound, NoSuchPoll(p))))
            && (p in c.polls && c.polls[p].spec.closesAt.Some? && c.now >= c.polls[p].spec.closesAt.value ==>
                  verdict == Some(ValidationError(PollIsClosed, ClosedSince(c.polls[p].spec.closesAt.value))))
  {
    hide Inv, RC.FirstProblem, PollSettled;
    QuietIsSettled(c);
    assert ResponseSettled(c.polls, c.responses[r], ClosedNow(c, c.responses[r].spec.pollRef));
  }

  lemma AcceptedAreValid(c: State, p: string)
    requires Inv(c) && Quiet(c)
    ensures CountedNames(c.responses, p) == ValidResponses(c, p)
    ensures forall id :: Answering(c.responses, p, id) == ValidAnswering(c, p, id)
    ensures forall id, o :: Choosing(c.responses, p, id, o) == ValidChoosing(c, p, id, o)
  {
    hide Inv, Quiet, VerdictNow;
    forall r | r in c.responses ensures CountedFor(p, c.responses[r]) <==> r in ValidResponses(c, p) {
      QuietResponse(c, r);
    }
    hide Chooses;
  }

  /**
   The row is that of the question: its options are the configured ones in their
   order, none for free text, and the numbers are those of the valid responses.
   */
  ghost predicate ShowsQuestion(c: State, p: string, q: Question, row: QuestionResult) {
    && row.questionID == q.id
    && row.responses == ToInt32(|ValidAnswering(c, p, q.id)|)
    && (q.qtype != Choice ==> row.options == [])
    && (q.qtype == Choice ==>
          && q.choice.Some? && |row.options| == |q.choice.value.options|
          && forall j | 0 <= j < |row.options| ::
               && row.options[j].option == q.choice.value.options[j]
               && row.options[j].votes == ToInt32(|ValidChoosing(c, p, q.id, q.choice.value.options[j])|))
  }

  /**
   Quiescent correctness: the stored results are those of the spec, with the
   number of valid responses in total, per question and per option.
   */
  lemma QuietResults(c: State, p: string)
    requires Inv(c) && Quiet(c) && p in c.polls
    ensures var status, questions := c.polls[p].status, c.polls[p].spec.questions;
            var closesAt := c.polls[p].spec.closesAt;
            && status.phase == (if closesAt.Some? && c.now >= closesAt.value then PollClosed else PollOpen)
            && status.totalResponses == ToInt32(|ValidResponses(c, p)|)
            && |status.results| == |questions|
            && forall i | 0 <= i < |questions| :: ShowsQuestion(c, p, questions[i], status.results[i])
  {
    QuietIsSettled(c);
    AcceptedAreValid(c, p);
    InvIsAdmitted(c, p);
    hide Inv, Quiet, ResponseSettled, ValidResponses, ValidAnswering, ValidChoosing, PL.RecordedOn;
    hide CountedNames, Answering, Choosing, ToInt32, StoreRow, ShowsQuestion, WellFormedQuestion;
    var questions := c.polls[p].spec.questions;
    forall i | 0 <= i < |questions| ensures ShowsQuestion(c, p, questions[i], StoreRow(c.responses, p, questions[i])) {
      StoreRowShows(c, p, questions[i]);
    }
  }

  lemma StoreRowShows(c: State, p: string, q: Question)
    requires WellFormedQuestion(q)
    requires forall id :: Answering(c.responses, p, id) == ValidAnswering(c, p, id)
    requires forall id, o :: Choosing(c.responses, p, id, o) == ValidChoosing(c, p, id, o)
    ensures ShowsQuestion(c, p, q, StoreRow(c.responses, p, q))
  {
    hide ValidAnswering, ValidChoosing, Answering, Choosing, ToInt32;
  }

  /** The Ready condition is true, with reason Open, exactly while the Poll takes responses. */
  lemma QuietReady(c: State, p: string)
    requires Inv(c) && Quiet(c) && p in c.polls
    ensures var status, closesAt := c.polls[p].status, c.polls[p].spec.closesAt;
            var open := closesAt.None? || c.now < closesAt.value;
            && |status.conditions| == 1 && status.conditions[0].ctype == Ready
            && status.conditions[0].observedGeneration == c.polls[p].generation
            && status.conditions[0].status == (if open then ConditionTrue else ConditionFalse)
            && status.conditions[0].reason == (if open then ReasonOpen else ReasonClosed)
            && status.conditions[0].message == (if open then AcceptingResponses else NoLongerAccepting)
            && status.openedAt.Some? && (status.closedAt.None? <==> open)
  {
    hide Inv, Quiet, ResponseSettled, StoreRows, StoreTotal;
    QuietIsSettled(c);
  }

  /** Below 2^31 responses these numbers are exact. */
  lemma QuietNumbersAreExact(c: State, p: string, id: string, o: string)
    requires |c.responses| < 0x8000_0000
    ensures ToInt32(|ValidResponses(c, p)|) == |ValidResponses(c, p)|
    ensures ToInt32(|ValidAnswering(c, p, id)|) == |ValidAnswering(c, p, id)|
    ensures ToInt32(|ValidChoosing(c, p, id, o)|) == |ValidChoosing(c, p, id, o)|
  {
    hide VerdictNow, Chooses;
    ExactSize(c, ValidResponses(c, p));
    ExactSize(c, ValidAnswering(c, p, id));
    ExactSize(c, ValidChoosing(c, p, id, o));
  }

  lemma ExactSize(c: State, s: set<string>)
    requires |c.responses| < 0x8000_0000 && s <= c.responses.Keys
    ensures ToInt32(|s|) == |s|
  {
    SubsetSize(s, c.responses.Keys);
  }

  // ---------- Conservation of votes in the stored results ----------

  lemma {:induction false} PoolAnswers(p: string, rs: seq<PollResponse>, i: nat)
    requires i < |Pool(p, rs)|
    ensures exists k, j | 0 <= k < |rs| && 0 <= j < |rs[k].spec.answers| ::
              CountedFor(p, rs[k]) && Pool(p, rs)[i] == rs[k].spec.answers[j]
  {
    var n := |rs| - 1;
    var before := Pool(p, rs[..n]);
    if i < |before| {
      PoolAnswers(p, rs[..n], i);
      var k, j :| 0 <= k < n && 0 <= j < |rs[..n][k].spec.answers|
                  && CountedFor(p, rs[..n][k]) && before[i] == rs[..n][k].spec.answers[j];
      assert rs[k] == rs[..n][k];
    } else {
      assert CountedFor(p, rs[n]) && Pool(p, rs)[i] == rs[n].spec.answers[i - |before|];
    }
  }

  lemma {:induction false} ListingExists(responses: Store) returns (names: seq<string>)
    ensures Lists(names, responses)
    decreases |responses|
  {
    if responses == map[] {
      names := [];
    } else {
      var r :| r in responses;
      var rest := responses - {r};
      assert |rest.Keys| < |responses.Keys| by { assert rest.Keys == responses.Keys - {r}; }
      names := ListingExists(rest);
      names := names + [r];
    }
  }

  lemma ValidAnswerFits(c: State, r: string, q: Question, a: Answer)
    requires Inv(c) && Quiet(c) && r in c.responses && c.responses[r].status.phase == ResponseAccepted
    requires c.responses[r].spec.pollRef in c.polls && q in c.polls[c.responses[r].spec.pollRef].spec.questions
    requires a in c.responses[r].spec.answers && a.questionID == q.id
    ensures RC.AnswerFits(q, a)
  {
    QuietResponse(c, r);
    var p := c.responses[r].spec.pollRef;
    var spec, answers := c.polls[p].spec, c.responses[r].spec.answers;
    assert PollOk(c, p) && ResponseOk(c, r);
    hide Inv, Quiet, PollAwake, RC.Verdict, PL.Coherent, RC.Coherent, RC.AnswerFits;
    RC.ValidationIsSoundAndComplete(spec, answers, c.now);
    assert RC.AnswerOk(spec.questions, a);
    var i :| 0 <= i < |spec.questions| && spec.questions[i].id == a.questionID && RC.AnswerFits(spec.questions[i], a);
    var k :| 0 <= k < |spec.questions| && spec.questions[k] == q;
    if i != k {
      DifferentIds(spec.questions, i, k);
    }
  }

  lemma QuietPoolFits(c: State, p: string, names: seq<string>, q: Question)
    requires Inv(c) && Quiet(c) && p in c.polls && q in c.polls[p].spec.questions && Lists(names, c.responses)
    ensures AnswersFit(q, Pool(p, Values(c.responses, names)))
  {
    var rs := Values(c.responses, names);
    var pool := Pool(p, rs);
    hide Inv, Quiet, RC.AnswerFits, Pool;
    forall i | 0 <= i < |pool| && pool[i].questionID == q.id ensures RC.AnswerFits(q, pool[i]) {
      PoolAnswers(p, rs, i);
      var k, j :| 0 <= k < |rs| && 0 <= j < |rs[k].spec.answers|
                  && CountedFor(p, rs[k]) && pool[i] == rs[k].spec.answers[j];
      ValidAnswerFits(c, names[k], q, pool[i]);
    }
  }

  lemma StoreRowIsConserved(responses: Store, names: seq<string>, p: string, q: Question)
    requires AdmittedStore(responses) && Lists(names, responses) && |responses| < 0x8000_0000
    requires WellFormedQuestion(q) && q.qtype == Choice && AnswersFit(q, Pool(p, Values(responses, names)))
    ensures Conserved(q, StoreRow(responses, p, q))
  {
    hide WellFormedQuestion, AnswersFit, AdmittedResponse, StoreRow, Pool, Conserved, VotesOfRows;
    ListingSize(responses, names);
    RowIsStoreRow(responses, names, p, q);
    assert AllAdmitted(Values(responses, names));
    VotesAreConserved(p, Values(responses, names), q);
  }

  /**
   Once quiet, the stored votes of a Choice question sum to between its
   responses and its responses times the selections one answer may make; for a
   single choice they sum to its responses.
   */
  lemma QuietVotesAreConserved(c: State, p: string, i: nat)
    requires Inv(c) && Quiet(c) && p in c.polls && |c.responses| < 0x8000_0000
    requires i < |c.polls[p].spec.questions| && c.polls[p].spec.questions[i].qtype == Choice
    ensures i < |c.polls[p].status.results| && c.polls[p].spec.questions[i].choice.Some?
    ensures Conserved(c.polls[p].spec.questions[i], c.polls[p].status.results[i])
  {
    var q := c.polls[p].spec.questions[i];
    InvIsAdmitted(c, p);
    assert WellFormedQuestion(q);
    QuietRow(c, p, i);
    var names := ListingExists(c.responses);
    QuietPoolFits(c, p, names, q);
    hide Inv, Quiet, Conserved, WellFormedQuestion, AnswersFit, StoreRow, Lists, AdmittedStore, AdmittedPoll;
    StoreRowIsConserved(c.responses, names, p, q);
  }

  lemma QuietRow(c: State, p: string, i: nat)
    requires Inv(c) && Quiet(c) && p in c.polls && i < |c.polls[p].spec.questions|
    ensures i < |c.polls[p].status.results|
    ensures c.polls[p].status.results[i] == StoreRow(c.responses, p, c.polls[p].spec.questions[i])
  {
    QuietIsSettled(c);
    hide Inv, Quiet, ResponseSettled, PL.RecordedOn, StoreRow;
  }

  lemma InvIsAdmitted(c: State, p: string)
    requires Inv(c) && p in c.polls
    ensures AdmittedPoll(c.polls[p].spec) && AdmittedStore(c.responses)
  {
    assert PollOk(c, p);
    forall r | r in c.responses ensures AdmittedResponse(c.responses[r].spec) {
      assert ResponseOk(c, r);
    }
  }

  lemma ListingSize(responses: Store, names: seq<string>)
    requires Lists(names, responses)
    ensures |names| == |responses|
  {
    DistinctCardinality(names);
    assert Elements(names) == responses.Keys;
  }

  /**
   Accepted responses do not survive closing: once a Poll is closed and the
   queues are empty, every response to it is Rejected(PollClosed) and the
   results are all zero.
   */
  lemma ClosedPollCountsNothing(c: State, p: string)
    requires Inv(c) && Quiet(c) && p in c.polls && RC.ClosedAt(c.polls[p].spec, c.now)
    ensures c.polls[p].status.phase == PollClosed && c.polls[p].status.totalResponses == 0
    ensures forall i | 0 <= i < |c.polls[p].status.results| ::
              && c.polls[p].status.results[i].responses == 0
              && forall j | 0 <= j < |c.polls[p].status.results[i].options| ::
                   c.polls[p].status.results[i].options[j].votes == 0
    ensures forall r | r in c.responses && c.responses[r].spec.pollRef == p ::
              && c.responses[r].status.phase == ResponseRejected
              && c.responses[r].status.conditions != []
              && c.responses[r].status.conditions[0].reason == PollIsClosed
  {
    QuietResults(c, p);
    forall r | r in c.responses && c.responses[r].spec.pollRef == p
      ensures VerdictNow(c, r).Some? && VerdictNow(c, r).value.reason == PollIsClosed
    {
    }
    forall r | r in c.responses && c.responses[r].spec.pollRef == p
      ensures && c.responses[r].status.phase == ResponseRejected
              && c.responses[r].status.conditions != []
              && c.responses[r].status.conditions[0].reason == PollIsClosed
    {
      QuietResponse(c, r);
    }
    assert ValidResponses(c, p) == {} by { hide Inv, Quiet, RC.Verdict; }
    hide Inv, Quiet, VerdictNow, ValidResponses;
    forall id: string, o: string ensures ValidAnswering(c, p, id) == {} && ValidChoosing(c, p, id, o) == {} {
    }
  }
}
